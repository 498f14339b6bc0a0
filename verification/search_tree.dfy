/** The search tree of the Monte Carlo tree search, kept as an arena.

    Every node lives in one sequence; node 0 is the root. A node names its
    parent and its children by index, a parent always sits at a smaller
    index than its children, and the root is the only node without a
    parent. Node records are values: an operation returns the updated tree.
 */
module SearchTree {
  import opened TicTacToe
  import opened StableSort

  datatype Option<T> = None | Some(value: T)

  /** A position in the search: its board, the player number it carries
      (meant to be the player who made the last move) and the statistics
      that backpropagation accumulates. The score only ever grows by 10. */
  datatype State = State(board: Board, player: int, visits: nat, score: nat)

  /** A node's cached UCT value is not stored: it is recomputed every time
      the children are ranked and read only by that ranking. */
  datatype Node = Node(state: State, parent: Option<nat>, children: seq<nat>)

  datatype Tree = Tree(nodes: seq<Node>)

  /** The outcome of a selection: the tree with the reordered children and
      the index of the chosen node. */
  datatype Selection = Selection(tree: Tree, node: nat)

  /* ----------------------------------------------------------- validity */

  /** Each element occurs exactly once. */
  ghost predicate Distinct(cs: seq<nat>) {
    forall c :: c in multiset(cs) ==> multiset(cs)[c] == 1
  }

  ghost predicate ValidAt(t: Tree, i: nat)
    requires i < |t.nodes|
  {
    var nd := t.nodes[i];
    && (nd.parent.None? <==> i == 0)
    && (nd.parent.Some? ==> nd.parent.value < i && i in t.nodes[nd.parent.value].children)
    && Distinct(nd.children)
    && (forall c :: c in nd.children ==> i < c < |t.nodes| && t.nodes[c].parent == Some(i))
  }

  /** The arena invariant: a root at index 0, parents before children, and
      parent and child links that agree, each child listed exactly once.
      The last conjunct follows from `ValidAt`; it is stated on its own so
      that specifications can index a child without unfolding `ValidAt`. */
  ghost predicate ValidTree(t: Tree) {
    && |t.nodes| > 0
    && (forall i :: 0 <= i < |t.nodes| ==> ValidAt(t, i))
    && (forall i, c :: 0 <= i < |t.nodes| && c in t.nodes[i].children ==> c < |t.nodes|)
  }

  /** `r` is `t` with only node `n`'s children listed in another order. */
  ghost predicate SameExceptChildOrder(t: Tree, r: Tree, n: nat) {
    && |r.nodes| == |t.nodes|
    && n < |t.nodes|
    && (forall i :: 0 <= i < |t.nodes| && i != n ==> r.nodes[i] == t.nodes[i])
    && r.nodes[n].state == t.nodes[n].state
    && r.nodes[n].parent == t.nodes[n].parent
    && multiset(r.nodes[n].children) == multiset(t.nodes[n].children)
  }

  /** `nd` is the node created under node `n` (holding state `ps`) for
      `move`: a leaf whose board has the move applied for the other player,
      while the player number and the statistics are copied from `ps`. */
  ghost predicate Spawned(nd: Node, n: nat, ps: State, move: Cell) {
    && nd.parent == Some(n)
    && nd.children == []
    && nd.state.board[move] == Flip(ps.player)
    && (forall i :: 0 <= i < 9 && i != move ==> nd.state.board[i] == ps.board[i])
    && nd.state.player == ps.player
    && nd.state.visits == ps.visits
    && nd.state.score == ps.score
  }

  /** The nodes of `r` from index `first` on are the children spawned under
      node `n` (holding state `ps`) for `moves`, one per move, in order. */
  ghost predicate SpawnedFor(r: Tree, first: nat, n: nat, ps: State, moves: seq<Cell>) {
    && first + |moves| <= |r.nodes|
    && forall j :: 0 <= j < |moves| ==> Spawned(r.nodes[first + j], n, ps, moves[j])
  }

  /** The visit count of node `c`, read as 0 outside the arena. */
  function VisitsOf(t: Tree, c: nat): nat {
    if c < |t.nodes| then t.nodes[c].state.visits else 0
  }

  /** The indices `lo`, `lo + 1`, ..., `lo + count - 1`. */
  function Range(lo: nat, count: nat): (r: seq<nat>)
    ensures |r| == count
    ensures forall k :: 0 <= k < count ==> r[k] == lo + k
  {
    seq(count, k requires 0 <= k < count => lo + k)
  }

  /* ------------------------------------------------------------- states */

  function NewState(board: Board, player: int): (s: State)
    ensures s.board == board && s.player == player
    ensures s.visits == 0 && s.score == 0
  {
    State(board, player, 0, 0)
  }

  /** A copy of `s` with `move` played for `p` on a copy of its board. The
      copy keeps `s`'s player number and statistics: `p` is written on the
      board only. */
  function NextState(s: State, move: Cell, p: int): (r: State)
    ensures r.board[move] == p
    ensures forall i :: 0 <= i < 9 && i != move ==> r.board[i] == s.board[i]
    ensures r.player == s.player && r.visits == s.visits && r.score == s.score
  {
    s.(board := PerformMove(Clone(s.board), move, p))
  }

  /** The state after one random move by the other player, `pick` standing
      for the random index; with no move left, the state itself. */
  function StateRandomPlay(s: State, pick: nat): (r: State)
    requires HasEmpty(s.board) ==> pick < |EmptyPlaces(s.board)|
    ensures !HasEmpty(s.board) ==> r == s
    ensures HasEmpty(s.board) ==> MovedAt(s.board, r.board, EmptyPlaces(s.board)[pick], Flip(s.player))
    ensures r.player == s.player && r.visits == s.visits && r.score == s.score
    ensures HasEmpty(s.board) && IsPlayer(s.player) ==>
      |EmptyPlaces(r.board)| == |EmptyPlaces(s.board)| - 1
  {
    var moves := EmptyPlaces(s.board);
    if |moves| == 0 then s
    else
      var m := moves[pick];
      assert m in moves;
      var r := NextState(s, m, Flip(s.player));
      if IsPlayer(s.player) then
        FillEmpty(s.board, m, Flip(s.player));
        assert r.board == PerformMove(s.board, m, Flip(s.player));
        r
      else r
  }

  /* -------------------------------------------------------------- nodes */

  function NewNode(s: State, parent: Option<nat>): (nd: Node)
    ensures nd.state == s && nd.parent == parent
    ensures nd.children == []
  {
    Node(s, parent, [])
  }

  function AddChild(nd: Node, c: nat): (r: Node)
    ensures r.state == nd.state && r.parent == nd.parent
    ensures r.children == nd.children + [c]
  {
    nd.(children := nd.children + [c])
  }

  /** Appending a leaf under node `n` and listing it last among `n`'s
      children keeps the arena valid. */
  lemma AppendLeafValid(t: Tree, n: nat, leaf: Node)
    requires ValidTree(t) && n < |t.nodes|
    requires leaf.parent == Some(n) && leaf.children == []
    ensures ValidTree(Tree(t.nodes[n := AddChild(t.nodes[n], |t.nodes|)] + [leaf]))
  {
    var k: nat := |t.nodes|;
    var r := Tree(t.nodes[n := AddChild(t.nodes[n], k)] + [leaf]);
    assert forall i :: 0 <= i < k ==> r.nodes[i] == (if i == n then AddChild(t.nodes[n], k) else t.nodes[i]);
    assert ValidAt(t, n);
    forall i | 0 <= i < |r.nodes|
      ensures ValidAt(r, i)
    {
      if i < k {
        assert ValidAt(t, i);
        var nd := t.nodes[i];
        if nd.parent.Some? {
          assert ValidAt(t, nd.parent.value);
        }
        if i == n {
          assert multiset(r.nodes[n].children) == multiset(nd.children) + multiset{k};
          assert k !in nd.children;
        }
      }
    }
  }

  /** Appends a new child of node `n` for `move` at the end of the arena. */
  function CreateChild(t: Tree, n: nat, move: Cell): (r: Tree)
    requires ValidTree(t) && n < |t.nodes|
    ensures ValidTree(r)
    ensures |r.nodes| == |t.nodes| + 1
    ensures forall i :: 0 <= i < |t.nodes| && i != n ==> r.nodes[i] == t.nodes[i]
    ensures r.nodes[n].state == t.nodes[n].state && r.nodes[n].parent == t.nodes[n].parent
    ensures r.nodes[n].children == t.nodes[n].children + [|t.nodes|]
    ensures Spawned(r.nodes[|t.nodes|], n, t.nodes[n].state, move)
  {
    var ps := t.nodes[n].state;
    var child := NewNode(NextState(ps, move, Flip(ps.player)), Some(n));
    AppendLeafValid(t, n, child);
    Tree(t.nodes[n := AddChild(t.nodes[n], |t.nodes|)] + [child])
  }

  /** The step of ExpandMoves: the first move's child, created at index
      `|t.nodes|`, followed by the children of the remaining moves. */
  lemma ExpandStep(t: Tree, t1: Tree, r: Tree, n: nat, moves: seq<Cell>)
    requires moves != [] && n < |t.nodes|
    requires |t1.nodes| == |t.nodes| + 1
    requires t1.nodes[n].state == t.nodes[n].state
    requires t1.nodes[n].children == t.nodes[n].children + [|t.nodes|]
    requires Spawned(t1.nodes[|t.nodes|], n, t.nodes[n].state, moves[0])
    requires |r.nodes| == |t1.nodes| + |moves| - 1
    requires r.nodes[|t.nodes|] == t1.nodes[|t.nodes|]
    requires r.nodes[n].children == t1.nodes[n].children + Range(|t1.nodes|, |moves| - 1)
    requires SpawnedFor(r, |t1.nodes|, n, t1.nodes[n].state, moves[1..])
    ensures r.nodes[n].children == t.nodes[n].children + Range(|t.nodes|, |moves|)
    ensures SpawnedFor(r, |t.nodes|, n, t.nodes[n].state, moves)
  {
    assert [|t.nodes|] + Range(|t1.nodes|, |moves| - 1) == Range(|t.nodes|, |moves|);
    forall j | 0 <= j < |moves|
      ensures Spawned(r.nodes[|t.nodes| + j], n, t.nodes[n].state, moves[j])
    {
      if j > 0 {
        assert moves[1..][j - 1] == moves[j];
      }
    }
  }

  /** Creates one child per move, in order: the children of node `n` grow by
      the new indices and nothing else in the arena changes. */
  function ExpandMoves(t: Tree, n: nat, moves: seq<Cell>): (r: Tree)
    requires ValidTree(t) && n < |t.nodes|
    ensures ValidTree(r)
    ensures |r.nodes| == |t.nodes| + |moves|
    ensures forall i :: 0 <= i < |t.nodes| && i != n ==> r.nodes[i] == t.nodes[i]
    ensures r.nodes[n].state == t.nodes[n].state && r.nodes[n].parent == t.nodes[n].parent
    ensures r.nodes[n].children == t.nodes[n].children + Range(|t.nodes|, |moves|)
    ensures SpawnedFor(r, |t.nodes|, n, t.nodes[n].state, moves)
    decreases |moves|
  {
    if moves == [] then
      assert t.nodes[n].children + Range(|t.nodes|, 0) == t.nodes[n].children;
      t
    else
      var t1 := CreateChild(t, n, moves[0]);
      var r := ExpandMoves(t1, n, moves[1..]);
      ExpandStep(t, t1, r, n, moves);
      r
  }

  /** Expansion: one new child per empty cell of the node's board, in
      increasing cell order, appended after the children already there (so
      expanding twice lists every move twice). */
  function ExpandNode(t: Tree, n: nat): (r: Tree)
    requires ValidTree(t) && n < |t.nodes|
    ensures ValidTree(r)
    ensures |r.nodes| == |t.nodes| + |EmptyPlaces(t.nodes[n].state.board)|
    ensures forall i :: 0 <= i < |t.nodes| && i != n ==> r.nodes[i] == t.nodes[i]
    ensures r.nodes[n].state == t.nodes[n].state && r.nodes[n].parent == t.nodes[n].parent
    ensures r.nodes[n].children ==
      t.nodes[n].children + Range(|t.nodes|, |EmptyPlaces(t.nodes[n].state.board)|)
    ensures SpawnedFor(r, |t.nodes|, n, t.nodes[n].state, EmptyPlaces(t.nodes[n].state.board))
  {
    var moves := EmptyPlaces(t.nodes[n].state.board);
    ExpandMoves(t, n, moves)
  }

  /** A new tree: a root holding `board` and `player` with zero statistics,
      already expanded with one child per empty cell. */
  function NewTree(board: Board, player: int): (t: Tree)
    ensures ValidTree(t)
    ensures t.nodes[0].state == NewState(board, player)
    ensures t.nodes[0].parent == None
    ensures |t.nodes| == 1 + |EmptyPlaces(board)|
    ensures t.nodes[0].children == Range(1, |EmptyPlaces(board)|)
    ensures SpawnedFor(t, 1, 0, NewState(board, player), EmptyPlaces(board))
  {
    var root := Tree([NewNode(NewState(board, player), None)]);
    assert ValidAt(root, 0);
    ExpandNode(root, 0)
  }

  /* ------------------------------------------------------------ ranking */

  /** A child's UCT rank: `Top` while unvisited, otherwise `uct` of its
      score, its visits and its parent's visits. `uct` stands for the
      floating-point formula. A visited node needs a parent, which the
      program would otherwise dereference as nil, and that parent must
      have been visited: the formula takes the logarithm of the parent's
      visits, and with none it yields NaN, which no rank stands for. */
  function FillUctValue(t: Tree, c: nat, uct: (nat, nat, nat) -> real): (r: Rank)
    requires c < |t.nodes|
    requires t.nodes[c].state.visits == 0 || RankedParent(t, c)
    ensures r == Top <==> t.nodes[c].state.visits == 0
    ensures r != Top ==>
      var p := t.nodes[c].parent.value;
      r == Finite(uct(t.nodes[c].state.score, t.nodes[c].state.visits, t.nodes[p].state.visits))
  {
    var s := t.nodes[c].state;
    if s.visits == 0 then Top
    else Finite(uct(s.score, s.visits, t.nodes[t.nodes[c].parent.value].state.visits))
  }

  /** Node `c` has a parent in the arena, and that parent has been visited. */
  ghost predicate RankedParent(t: Tree, c: nat)
    requires c < |t.nodes|
  {
    && t.nodes[c].parent.Some?
    && t.nodes[c].parent.value < |t.nodes|
    && t.nodes[t.nodes[c].parent.value].state.visits > 0
  }

  /** Every node of `cs` is in the arena and has a parent there, and each
      visited one has a visited parent, so each one can be ranked. */
  ghost predicate Rankable(t: Tree, cs: seq<nat>) {
    forall i :: 0 <= i < |cs| ==>
      && cs[i] < |t.nodes| && t.nodes[cs[i]].parent.Some? && t.nodes[cs[i]].parent.value < |t.nodes|
      && (t.nodes[cs[i]].state.visits == 0 || RankedParent(t, cs[i]))
  }

  /** Node `n` has been visited if any of its children has. The search
      keeps this at the root, which gains a visit with each of its
      children's (`Mcts.RootVisitedFirst`). */
  ghost predicate VisitedBeforeChildren(t: Tree, n: nat)
    requires n < |t.nodes|
  {
    forall c :: c in t.nodes[n].children && VisitsOf(t, c) > 0 ==> VisitsOf(t, n) > 0
  }

  /** The children of a node in a valid tree can be ranked. */
  lemma ChildrenRankable(t: Tree, n: nat)
    requires ValidTree(t) && n < |t.nodes|
    requires VisitedBeforeChildren(t, n)
    ensures Rankable(t, t.nodes[n].children)
  {
    var cs := t.nodes[n].children;
    assert ValidAt(t, n);
    forall i | 0 <= i < |cs|
      ensures cs[i] < |t.nodes| && t.nodes[cs[i]].parent == Some(n)
      ensures t.nodes[cs[i]].state.visits == 0 || RankedParent(t, cs[i])
    {
      assert cs[i] in cs;
    }
  }

  /** Each node of `cs`, in order, paired with its UCT rank: the values the
      selection sorts by. */
  function UctEntries(t: Tree, cs: seq<nat>, uct: (nat, nat, nat) -> real): (es: seq<Entry>)
    requires Rankable(t, cs)
    ensures |es| == |cs|
    ensures forall i :: 0 <= i < |cs| ==> es[i].item == cs[i] && es[i].rank == FillUctValue(t, cs[i], uct)
  {
    if cs == [] then []
    else [Entry(cs[0], FillUctValue(t, cs[0], uct))] + UctEntries(t, cs[1..], uct)
  }

  /** Each node of `cs`, in order, paired with its visit count. */
  function VisitEntries(t: Tree, cs: seq<nat>): (es: seq<Entry>)
    ensures |es| == |cs|
    ensures forall i :: 0 <= i < |cs| ==> es[i] == Entry(cs[i], Finite(VisitsOf(t, cs[i]) as real))
  {
    if cs == [] then []
    else [Entry(cs[0], Finite(VisitsOf(t, cs[0]) as real))] + VisitEntries(t, cs[1..])
  }

  /** Listing a node's children in another order keeps the arena valid. */
  lemma PermuteChildrenValid(t: Tree, n: nat, cs: seq<nat>)
    requires ValidTree(t) && n < |t.nodes|
    requires multiset(cs) == multiset(t.nodes[n].children)
    ensures ValidTree(Tree(t.nodes[n := t.nodes[n].(children := cs)]))
  {
    var r := Tree(t.nodes[n := t.nodes[n].(children := cs)]);
    var old_cs := t.nodes[n].children;
    assert forall c :: c in cs <==> c in old_cs by {
      forall c
        ensures c in cs <==> c in old_cs
      {
        assert c in cs <==> c in multiset(cs);
        assert c in old_cs <==> c in multiset(old_cs);
      }
    }
    forall i | 0 <= i < |r.nodes|
      ensures ValidAt(r, i)
    {
      assert ValidAt(t, i);
      var nd := t.nodes[i];
      if nd.parent.Some? {
        assert ValidAt(t, nd.parent.value);
      }
    }
  }

  /** Sorts node `n`'s children stably by descending rank, `es` pairing each
      child with its rank. */
  function ReorderChildren(t: Tree, n: nat, es: seq<Entry>): (r: Tree)
    requires ValidTree(t) && n < |t.nodes|
    requires Items(es) == t.nodes[n].children
    ensures ValidTree(r)
    ensures SameExceptChildOrder(t, r, n)
    ensures r.nodes[n].children == Items(SortStable(es))
  {
    var sorted := Items(SortStable(es));
    SortStableItems(es);
    PermuteChildrenValid(t, n, sorted);
    Tree(t.nodes[n := t.nodes[n].(children := sorted)])
  }

  /** One selection step from node `n`: a leaf selects itself; otherwise
      the children are ranked by UCT, reordered stably by descending rank,
      and the first one is selected, which is the earliest child of highest
      rank. */
  function SelectPromisingNode(t: Tree, n: nat, uct: (nat, nat, nat) -> real): (r: Selection)
    requires ValidTree(t) && n < |t.nodes|
    requires VisitedBeforeChildren(t, n)
    ensures ValidTree(r.tree)
    ensures t.nodes[n].children == [] ==> r == Selection(t, n)
    ensures t.nodes[n].children != [] ==>
      && Rankable(t, t.nodes[n].children)
      && SameExceptChildOrder(t, r.tree, n)
      && r.tree.nodes[n].children == Items(SortStable(UctEntries(t, t.nodes[n].children, uct)))
      && r.node == t.nodes[n].children[FirstBest(UctEntries(t, t.nodes[n].children, uct))]
  {
    var cs := t.nodes[n].children;
    if cs == [] then Selection(t, n)
    else
      ChildrenRankable(t, n);
      var es := UctEntries(t, cs, uct);
      assert Items(es) == cs;
      var r := ReorderChildren(t, n, es);
      SortStableHead(es);
      Selection(r, r.nodes[n].children[0])
  }

  /** `node` is `cs[j]` for a `j` whose UCT rank is at least every rank in
      `cs` and strictly above every rank before it. */
  ghost predicate UctChoice(t: Tree, cs: seq<nat>, uct: (nat, nat, nat) -> real, node: nat)
    requires Rankable(t, cs)
  {
    var es := UctEntries(t, cs, uct);
    exists j :: 0 <= j < |cs| && node == cs[j] &&
      (forall i :: 0 <= i < |cs| ==> !Above(es[i].rank, es[j].rank)) &&
      (forall i :: 0 <= i < j ==> Above(es[j].rank, es[i].rank))
  }

  /** When some node of `cs` is unvisited, `node` is the first unvisited
      node of `cs`. */
  ghost predicate PrefersUnvisited(t: Tree, cs: seq<nat>, node: nat) {
    (exists i :: 0 <= i < |cs| && VisitsOf(t, cs[i]) == 0) ==>
      exists j :: 0 <= j < |cs| && node == cs[j] && VisitsOf(t, cs[j]) == 0 &&
        forall i :: 0 <= i < j ==> VisitsOf(t, cs[i]) > 0
  }

  /** The earliest node of highest UCT rank is a UCT choice that prefers
      unvisited nodes, because exactly the unvisited nodes rank `Top`. */
  lemma FirstBestUct(t: Tree, cs: seq<nat>, uct: (nat, nat, nat) -> real, node: nat)
    requires Rankable(t, cs) && |cs| > 0
    requires node == cs[FirstBest(UctEntries(t, cs, uct))]
    ensures UctChoice(t, cs, uct, node)
    ensures PrefersUnvisited(t, cs, node)
  {
    var es := UctEntries(t, cs, uct);
    var j := FirstBest(es);
    assert node == cs[j];
    if exists i :: 0 <= i < |cs| && VisitsOf(t, cs[i]) == 0 {
      var i :| 0 <= i < |cs| && VisitsOf(t, cs[i]) == 0;
      assert es[i].rank == Top;
      assert es[j].rank == Top;
      forall l | 0 <= l < j
        ensures VisitsOf(t, cs[l]) > 0
      {
        assert Above(es[j].rank, es[l].rank);
        assert es[l].rank != Top;
        assert t.nodes[cs[l]].state.visits != 0;
      }
      assert VisitsOf(t, cs[j]) == 0;
    }
  }

  /** Selection prefers an unvisited child: the selected node is a child
      ranking at least as high as every sibling and strictly higher than
      every sibling listed before it; when some child is unvisited, it is
      the first unvisited child in the prior order. */
  lemma SelectUnvisitedFirst(t: Tree, n: nat, uct: (nat, nat, nat) -> real)
    requires ValidTree(t) && n < |t.nodes|
    requires VisitedBeforeChildren(t, n)
    requires |t.nodes[n].children| > 0
    ensures Rankable(t, t.nodes[n].children)
    ensures UctChoice(t, t.nodes[n].children, uct, SelectPromisingNode(t, n, uct).node)
    ensures PrefersUnvisited(t, t.nodes[n].children, SelectPromisingNode(t, n, uct).node)
  {
    ChildrenRankable(t, n);
    FirstBestUct(t, t.nodes[n].children, uct, SelectPromisingNode(t, n, uct).node);
  }

  /** The final choice: node `n`'s children are reordered stably by
      descending visit count and the first one is returned. With no child
      the program fails on an index out of range. */
  function GetWinnerChild(t: Tree, n: nat): (r: Selection)
    requires ValidTree(t) && n < |t.nodes|
    requires |t.nodes[n].children| > 0
    ensures ValidTree(r.tree)
    ensures SameExceptChildOrder(t, r.tree, n)
    ensures r.tree.nodes[n].children == Items(SortStable(VisitEntries(t, t.nodes[n].children)))
    ensures r.node == r.tree.nodes[n].children[0]
    ensures r.node == t.nodes[n].children[FirstBest(VisitEntries(t, t.nodes[n].children))]
  {
    var cs := t.nodes[n].children;
    var es := VisitEntries(t, cs);
    assert Items(es) == cs;
    var r := ReorderChildren(t, n, es);
    SortStableHead(es);
    Selection(r, r.nodes[n].children[0])
  }

  /** The nodes of `cs` with exactly `v` visits, in their order in `cs`. */
  function WithVisits(t: Tree, cs: seq<nat>, v: nat): (r: seq<nat>)
    ensures |r| <= |cs|
  {
    if cs == [] then []
    else if VisitsOf(t, cs[0]) == v then [cs[0]] + WithVisits(t, cs[1..], v)
    else WithVisits(t, cs[1..], v)
  }

  /** Selecting the entries of a visit count selects the nodes with it. */
  lemma {:induction false} WithVisitsEntries(t: Tree, cs: seq<nat>, v: nat)
    ensures Items(WithRank(VisitEntries(t, cs), Finite(v as real))) == WithVisits(t, cs, v)
  {
    if cs != [] {
      var es := VisitEntries(t, cs);
      WithVisitsEntries(t, cs[1..], v);
      assert es[1..] == VisitEntries(t, cs[1..]);
      if VisitsOf(t, cs[0]) == v {
        ItemsCons(es[0], WithRank(es[1..], Finite(v as real)));
      }
    }
  }

  /** Entries that each carry their node's visit count are the visit
      entries of their nodes. */
  lemma {:induction false} VisitEntriesOfItems(t: Tree, s: seq<Entry>)
    requires forall i :: 0 <= i < |s| ==> s[i].rank == Finite(VisitsOf(t, s[i].item) as real)
    ensures VisitEntries(t, Items(s)) == s
  {
  }

  /** Sorting by visits only reorders entries that carry their node's visit
      count, so the sorted entries are the visit entries of the sorted
      nodes. */
  lemma SortedVisitEntries(t: Tree, cs: seq<nat>, ss: seq<Entry>)
    requires ss == SortStable(VisitEntries(t, cs))
    ensures VisitEntries(t, Items(ss)) == ss
  {
    var es := VisitEntries(t, cs);
    forall i | 0 <= i < |ss|
      ensures ss[i].rank == Finite(VisitsOf(t, ss[i].item) as real)
    {
      assert ss[i] in multiset(es);
      var l :| 0 <= l < |es| && es[l] == ss[i];
    }
    VisitEntriesOfItems(t, ss);
  }

  /** `sorted` lists the nodes of `cs` by descending visit count, nodes
      with equal counts in their order in `cs`. */
  ghost predicate OrderedByVisits(t: Tree, cs: seq<nat>, sorted: seq<nat>) {
    && (forall i, j :: 0 <= i < j < |sorted| ==> VisitsOf(t, sorted[i]) >= VisitsOf(t, sorted[j]))
    && (forall v: nat :: WithVisits(t, sorted, v) == WithVisits(t, cs, v))
  }

  /** `node` is a most visited node of `cs`, strictly more visited than
      every node listed before it. */
  ghost predicate MostVisitedFirst(t: Tree, cs: seq<nat>, node: nat) {
    exists j :: 0 <= j < |cs| && node == cs[j] &&
      (forall i :: 0 <= i < |cs| ==> VisitsOf(t, cs[i]) <= VisitsOf(t, node)) &&
      (forall i :: 0 <= i < j ==> VisitsOf(t, cs[i]) < VisitsOf(t, node))
  }

  /** Nodes whose visit entries are in descending order are listed by
      descending visit count. */
  lemma DescendingVisits(t: Tree, cs: seq<nat>)
    requires Descending(VisitEntries(t, cs))
    ensures forall i, j :: 0 <= i < j < |cs| ==> VisitsOf(t, cs[i]) >= VisitsOf(t, cs[j])
  {
    var es := VisitEntries(t, cs);
    forall i, j | 0 <= i < j < |cs|
      ensures VisitsOf(t, cs[i]) >= VisitsOf(t, cs[j])
    {
      assert !Above(es[j].rank, es[i].rank);
    }
  }

  /** Sorting by visits lists the nodes by descending visit count, nodes
      with equal counts keeping their prior order. */
  lemma SortByVisits(t: Tree, cs: seq<nat>, sorted: seq<nat>)
    requires sorted == Items(SortStable(VisitEntries(t, cs)))
    ensures OrderedByVisits(t, cs, sorted)
  {
    var es := VisitEntries(t, cs);
    var ss := SortStable(es);
    SortedVisitEntries(t, cs, ss);
    SortStableDescending(es);
    DescendingVisits(t, sorted);
    forall v: nat
      ensures WithVisits(t, sorted, v) == WithVisits(t, cs, v)
    {
      SortStableKeepsTies(es, Finite(v as real));
      WithVisitsEntries(t, sorted, v);
      WithVisitsEntries(t, cs, v);
    }
  }

  /** The earliest node of highest visit count is a most visited node,
      strictly more visited than every node before it. */
  lemma FirstBestVisits(t: Tree, cs: seq<nat>, node: nat)
    requires |cs| > 0 && node == cs[FirstBest(VisitEntries(t, cs))]
    ensures MostVisitedFirst(t, cs, node)
  {
    var es := VisitEntries(t, cs);
    var j := FirstBest(es);
    forall i | 0 <= i < |cs|
      ensures VisitsOf(t, cs[i]) <= VisitsOf(t, cs[j])
    {
      assert !Above(es[i].rank, es[j].rank);
    }
    forall i | 0 <= i < j
      ensures VisitsOf(t, cs[i]) < VisitsOf(t, cs[j])
    {
      assert Above(es[j].rank, es[i].rank);
    }
  }

  /** The winner is a most visited child, ties going to the child listed
      first; afterwards the children are listed by descending visit count,
      children with equal counts keeping their prior order. */
  lemma WinnerChildMostVisited(t: Tree, n: nat)
    requires ValidTree(t) && n < |t.nodes|
    requires |t.nodes[n].children| > 0
    ensures MostVisitedFirst(t, t.nodes[n].children, GetWinnerChild(t, n).node)
    ensures OrderedByVisits(t, t.nodes[n].children, GetWinnerChild(t, n).tree.nodes[n].children)
  {
    FirstBestVisits(t, t.nodes[n].children, GetWinnerChild(t, n).node);
    SortByVisits(t, t.nodes[n].children, GetWinnerChild(t, n).tree.nodes[n].children);
  }
}
