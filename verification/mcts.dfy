/** The Monte Carlo tree search loop: random playouts, backpropagation of
    their results along the parent chain, and the fixed-count iteration that
    picks the next move.

    Random draws are inputs. Where the program calls `rand.Intn(n)`, the
    model takes a natural number from the caller and reduces it modulo `n`,
    so every index the program could draw is reachable and no other.
 */
module Mcts {
  import opened TicTacToe
  import opened StableSort
  import opened SearchTree

  /* -------------------------------------------------------------- paths */

  /** The parent links of the arena. */
  ghost function Links(t: Tree): (links: seq<Option<nat>>)
    ensures |links| == |t.nodes|
    ensures forall i :: 0 <= i < |t.nodes| ==> links[i] == t.nodes[i].parent
  {
    seq(|t.nodes|, i requires 0 <= i < |t.nodes| => t.nodes[i].parent)
  }

  /** Every link points to a smaller index. */
  ghost predicate Upward(links: seq<Option<nat>>) {
    forall i :: 0 <= i < |links| && links[i].Some? ==> links[i].value < i
  }

  lemma ValidTreeIsUpward(t: Tree)
    requires ValidTree(t)
    ensures Upward(Links(t))
  {
    forall i | 0 <= i < |t.nodes| && t.nodes[i].parent.Some?
      ensures t.nodes[i].parent.value < i
    {
      assert ValidAt(t, i);
    }
  }

  /** Node `i` lies on the parent chain that starts at node `x`. */
  ghost predicate OnPath(links: seq<Option<nat>>, x: nat, i: nat)
    requires Upward(links) && x < |links|
    decreases x
  {
    i == x || (links[x].Some? && OnPath(links, links[x].value, i))
  }

  /** A parent chain only climbs: its nodes sit at or below its start. */
  lemma {:induction false} OnPathBelow(links: seq<Option<nat>>, x: nat, i: nat)
    requires Upward(links) && x < |links|
    requires OnPath(links, x, i)
    ensures i <= x
    decreases x
  {
    if i != x {
      OnPathBelow(links, links[x].value, i);
    }
  }

  /** Every parent chain ends at the root. */
  lemma {:induction false} RootOnEveryPath(t: Tree, x: nat)
    requires ValidTree(t) && x < |t.nodes|
    ensures Upward(Links(t))
    ensures OnPath(Links(t), x, 0)
    decreases x
  {
    ValidTreeIsUpward(t);
    assert ValidAt(t, x);
    if x != 0 {
      RootOnEveryPath(t, t.nodes[x].parent.value);
    }
  }

  /* ---------------------------------------------------- backpropagation */

  /** `r` differs from `t` at most in visit counts and scores. */
  ghost predicate SameShape(t: Tree, r: Tree) {
    && |r.nodes| == |t.nodes|
    && forall i :: 0 <= i < |t.nodes| ==>
      && r.nodes[i].parent == t.nodes[i].parent
      && r.nodes[i].children == t.nodes[i].children
      && r.nodes[i].state.board == t.nodes[i].state.board
      && r.nodes[i].state.player == t.nodes[i].state.player
  }

  lemma SameShapeValid(t: Tree, r: Tree)
    requires ValidTree(t) && SameShape(t, r)
    ensures ValidTree(r)
    ensures Links(r) == Links(t)
  {
    forall i | 0 <= i < |r.nodes|
      ensures ValidAt(r, i)
    {
      assert ValidAt(t, i);
    }
  }

  /** One node's share of a playout result: one more visit, and 10 more
      points when the node's player number is the result. */
  function Credit(nd: Node, result: int): (r: Node)
    ensures r.parent == nd.parent && r.children == nd.children
    ensures r.state.board == nd.state.board && r.state.player == nd.state.player
    ensures r.state.visits == nd.state.visits + 1
    ensures r.state.score == nd.state.score + (if nd.state.player == result then 10 else 0)
  {
    var s := nd.state;
    nd.(state := s.(visits := s.visits + 1,
                    score := if s.player == result then s.score + 10 else s.score))
  }

  /** Walks from node `x` up to the root, crediting every node on the way
      with the playout `result`; all other nodes are left as they were. */
  function BackPropagation(t: Tree, x: nat, result: int): (r: Tree)
    requires ValidTree(t) && x < |t.nodes|
    ensures ValidTree(r) && SameShape(t, r)
    ensures Upward(Links(t))
    ensures forall i :: 0 <= i < |t.nodes| ==>
      r.nodes[i].state.visits == t.nodes[i].state.visits + (if OnPath(Links(t), x, i) then 1 else 0)
    ensures forall i :: 0 <= i < |t.nodes| ==>
      r.nodes[i].state.score == t.nodes[i].state.score +
        (if OnPath(Links(t), x, i) && t.nodes[i].state.player == result then 10 else 0)
    decreases x
  {
    ValidTreeIsUpward(t);
    assert ValidAt(t, x);
    var credited := Tree(t.nodes[x := Credit(t.nodes[x], result)]);
    SameShapeValid(t, credited);
    match t.nodes[x].parent
    case None => credited
    case Some(p) =>
      var r := BackPropagation(credited, p, result);
      assert forall i :: 0 <= i < |t.nodes| && OnPath(Links(t), p, i) ==> i != x by {
        forall i | 0 <= i < |t.nodes| && OnPath(Links(t), p, i)
          ensures i != x
        {
          OnPathBelow(Links(t), p, i);
        }
      }
      r
  }

  /** Backpropagation adds exactly one visit to the root. */
  lemma BackPropagationReachesRoot(t: Tree, x: nat, result: int)
    requires ValidTree(t) && x < |t.nodes|
    ensures BackPropagation(t, x, result).nodes[0].state.visits == t.nodes[0].state.visits + 1
  {
    RootOnEveryPath(t, x);
  }

  /** A draw adds score nowhere when no node carries the draw code as its
      player number. */
  lemma DrawAddsNoScore(t: Tree, x: nat)
    requires ValidTree(t) && x < |t.nodes|
    requires forall i :: 0 <= i < |t.nodes| ==> t.nodes[i].state.player != Draw
    ensures forall i :: 0 <= i < |t.nodes| ==>
      BackPropagation(t, x, Draw).nodes[i].state.score == t.nodes[i].state.score
  {
  }

  /* ------------------------------------------------------------ playout */

  /** `r` keeps every mark of `b` and only adds player marks in empty cells. */
  ghost predicate FillsEmpty(b: Board, r: Board) {
    forall i :: 0 <= i < 9 ==> r[i] == b[i] || (b[i] == Empty && IsPlayer(r[i]))
  }

  /** The playout loop: while the game is in progress, `player` makes a
      random move and the turn passes to the other player. `picks` holds the
      random draws, one per move. */
  function PlayoutBoard(b: Board, player: int, picks: seq<nat>): (r: Board)
    requires IsPlayer(player)
    requires |picks| >= |EmptyPlaces(b)|
    ensures CheckStatus(r) != InProgress
    ensures FillsEmpty(b, r)
    decreases |EmptyPlaces(b)|
  {
    if CheckStatus(b) != InProgress then b
    else
      var n := |EmptyPlaces(b)|;
      var next := RandomPlay(b, player, picks[0] % n);
      FlipInvolution(player);
      PlayoutBoard(next, Flip(player), picks[1..])
  }

  /** A random playout from state `s`: one random move from the state, then
      the playout loop, starting with the other player of `s`'s player
      number. The result is the final status, never `InProgress`, and is the
      status of some completion of `s`'s board. */
  function SimulateRandomPlayout(s: State, picks: seq<nat>): (status: int)
    requires IsPlayer(s.player)
    requires |picks| >= |EmptyPlaces(s.board)|
    ensures status == O || status == X || status == Draw
    ensures exists final: Board :: FillsEmpty(s.board, final) && CheckStatus(final) == status
  {
    var n := |EmptyPlaces(s.board)|;
    var next := StateRandomPlay(s, if n == 0 then 0 else picks[0] % n);
    var rest := if n == 0 then picks else picks[1..];
    FlipInvolution(next.player);
    var final := PlayoutBoard(next.board, Flip(next.player), rest);
    assert FillsEmpty(s.board, final);
    CheckStatus(final)
  }

  /* -------------------------------------------------------- search loop */

  /** Total visits of the listed nodes. */
  function SumVisits(t: Tree, cs: seq<nat>): nat {
    if cs == [] then 0 else VisitsOf(t, cs[0]) + SumVisits(t, cs[1..])
  }

  /** Leaving one node out takes exactly its visits off the total. */
  lemma {:induction false} SumVisitsWithout(t: Tree, b: seq<nat>, j: nat)
    requires j < |b|
    ensures SumVisits(t, b) == VisitsOf(t, b[j]) + SumVisits(t, b[..j] + b[j + 1..])
    decreases j
  {
    var r := b[..j] + b[j + 1..];
    if j == 0 {
      assert r == b[1..];
    } else {
      var tail := b[1..];
      SumVisitsWithout(t, tail, j - 1);
      assert r[0] == b[0];
      assert r[1..] == tail[..j - 1] + tail[j..];
    }
  }

  /** Reordering a list of nodes does not change their total visits. */
  lemma {:induction false} SumVisitsPermutation(t: Tree, a: seq<nat>, b: seq<nat>)
    requires multiset(a) == multiset(b)
    ensures SumVisits(t, a) == SumVisits(t, b)
    decreases |a|
  {
    if a == [] {
      assert |b| == |multiset(b)| == 0;
    } else {
      var x := a[0];
      assert x in multiset(b);
      var j :| 0 <= j < |b| && b[j] == x;
      var rest := b[..j] + b[j + 1..];
      SumVisitsWithout(t, b, j);
      assert a == [x] + a[1..];
      assert b == b[..j] + [x] + b[j + 1..];
      assert multiset(rest) == multiset(b) - multiset{x};
      assert multiset(a[1..]) == multiset(a) - multiset{x};
      SumVisitsPermutation(t, a[1..], rest);
    }
  }

  /** Nodes that were never visited add nothing. */
  lemma {:induction false} SumVisitsUnvisited(t: Tree, cs: seq<nat>)
    requires forall c :: c in cs ==> VisitsOf(t, c) == 0
    ensures SumVisits(t, cs) == 0
    decreases |cs|
  {
    if cs != [] {
      assert cs[0] in cs;
      SumVisitsUnvisited(t, cs[1..]);
    }
  }

  /** When exactly node `p` among the listed ones gains one visit, the
      total grows by the number of times `p` is listed. */
  lemma {:induction false} SumVisitsBump(t: Tree, r: Tree, cs: seq<nat>, p: nat)
    requires forall c :: c in cs ==> VisitsOf(r, c) == VisitsOf(t, c) + (if c == p then 1 else 0)
    ensures SumVisits(r, cs) == SumVisits(t, cs) + multiset(cs)[p]
    decreases |cs|
  {
    if cs != [] {
      assert cs == [cs[0]] + cs[1..];
      SumVisitsBump(t, r, cs[1..], p);
    }
  }

  /** Nodes that keep their visit counts keep their total. */
  lemma {:induction false} SumVisitsFrame(t: Tree, r: Tree, cs: seq<nat>)
    requires forall c :: c in cs ==> VisitsOf(r, c) == VisitsOf(t, c)
    ensures SumVisits(r, cs) == SumVisits(t, cs)
    decreases |cs|
  {
    if cs != [] {
      SumVisitsFrame(t, r, cs[1..]);
    }
  }

  /** The random draws of one iteration: the index of the child to explore
      and the draws of its playout. */
  datatype Draws = Draws(child: nat, playout: seq<nat>)

  /** The shape the search keeps for `mover` on `board`: the root holds the
      board and has children, each root child's board is the board after
      one move of `mover`, and every node carries the root's player number,
      the other player of `mover`. */
  ghost predicate SearchShape(t: Tree, board: Board, mover: int) {
    && IsPlayer(mover)
    && ValidTree(t)
    && t.nodes[0].state.board == board
    && (forall i :: 0 <= i < |t.nodes| ==> t.nodes[i].state.player == Flip(mover))
    && |t.nodes[0].children| > 0
    && (forall c :: c in t.nodes[0].children ==> OneMove(board, t.nodes[c].state.board, mover))
  }

  /** After `done` iterations the root has been visited `done` times and its
      children's visits add up to `done`: every iteration credits the root
      and exactly one of its children. */
  ghost predicate SearchInvariant(t: Tree, board: Board, mover: int, done: nat) {
    && SearchShape(t, board, mover)
    && t.nodes[0].state.visits == done
    && SumVisits(t, t.nodes[0].children) == done
  }

  /** The tree built for a board with a free cell satisfies the invariant
      with no iteration done. */
  lemma SearchStarts(board: Board, mover: int)
    requires IsPlayer(mover) && HasEmpty(board)
    ensures SearchInvariant(NewTree(board, Flip(mover)), board, mover, 0)
  {
    var t := NewTree(board, Flip(mover));
    var moves := EmptyPlaces(board);
    var root := NewState(board, Flip(mover));
    FlipInvolution(mover);
    assert ValidAt(t, 0);
    forall i | 0 < i < |t.nodes|
      ensures Spawned(t.nodes[i], 0, root, moves[i - 1])
    {
      assert t.nodes[1 + (i - 1)] == t.nodes[i];
    }
    forall c | c in t.nodes[0].children
      ensures OneMove(board, t.nodes[c].state.board, mover) && VisitsOf(t, c) == 0
    {
      assert moves[c - 1] in moves;
      assert MovedAt(board, t.nodes[c].state.board, moves[c - 1], mover);
    }
    SumVisitsUnvisited(t, t.nodes[0].children);
  }

  /** Reordering the root's children keeps the invariant; no visit count
      changes. */
  lemma SelectKeepsInvariant(t: Tree, r: Tree, board: Board, mover: int, done: nat)
    requires SearchInvariant(t, board, mover, done)
    requires ValidTree(r) && SameExceptChildOrder(t, r, 0)
    ensures SearchInvariant(r, board, mover, done)
    ensures forall c :: VisitsOf(r, c) == VisitsOf(t, c)
    ensures forall c :: c in r.nodes[0].children ==> c in t.nodes[0].children
  {
    var cs := t.nodes[0].children;
    var rs := r.nodes[0].children;
    assert ValidAt(t, 0);
    forall c | c in rs
      ensures c in cs
    {
      assert c in multiset(rs);
    }
    assert |rs| == |multiset(rs)| == |multiset(cs)| == |cs|;
    SumVisitsFrame(t, r, rs);
    SumVisitsPermutation(t, rs, cs);
  }

  /** Under the invariant the root has been visited once any of its
      children has, so the UCT value of every root child is defined. */
  lemma RootVisitedFirst(t: Tree, board: Board, mover: int, done: nat)
    requires SearchInvariant(t, board, mover, done)
    ensures VisitedBeforeChildren(t, 0)
  {
    var cs := t.nodes[0].children;
    forall c | c in cs && VisitsOf(t, c) > 0
      ensures VisitsOf(t, 0) > 0
    {
      var j :| 0 <= j < |cs| && cs[j] == c;
      SumVisitsWithout(t, cs, j);
    }
  }

  /** One selection from the root keeps the invariant and selects a child
      of the root. */
  lemma SelectStep(t: Tree, board: Board, mover: int, done: nat, uct: (nat, nat, nat) -> real)
    requires SearchInvariant(t, board, mover, done)
    ensures VisitedBeforeChildren(t, 0)
    ensures var sel := SelectPromisingNode(t, 0, uct);
      SearchInvariant(sel.tree, board, mover, done) && sel.node in sel.tree.nodes[0].children
  {
    RootVisitedFirst(t, board, mover, done);
    var sel := SelectPromisingNode(t, 0, uct);
    var cs := t.nodes[0].children;
    SelectKeepsInvariant(t, sel.tree, board, mover, done);
    assert sel.node in multiset(cs);
  }

  /** Expanding a child of the root keeps the invariant and the root. */
  lemma ExpandKeepsInvariant(t: Tree, p: nat, board: Board, mover: int, done: nat)
    requires SearchInvariant(t, board, mover, done)
    requires p in t.nodes[0].children
    ensures SearchInvariant(ExpandNode(t, p), board, mover, done)
    ensures ExpandNode(t, p).nodes[0] == t.nodes[0]
  {
    var r := ExpandNode(t, p);
    var moves := EmptyPlaces(t.nodes[p].state.board);
    assert ValidAt(t, 0);
    forall i | |t.nodes| <= i < |r.nodes|
      ensures r.nodes[i].state.player == Flip(mover)
    {
      assert Spawned(r.nodes[|t.nodes| + (i - |t.nodes|)], p, t.nodes[p].state, moves[i - |t.nodes|]);
    }
    SumVisitsFrame(t, r, t.nodes[0].children);
  }

  /** Backpropagating from the selected child `p` of the root, or from a
      child of `p`, credits the root and `p` and no other root child, so
      the invariant holds with one more iteration done. */
  lemma BackPropagationKeepsInvariant(t: Tree, p: nat, x: nat, result: int, board: Board, mover: int, done: nat)
    requires SearchInvariant(t, board, mover, done)
    requires p in t.nodes[0].children
    requires x < |t.nodes| && (x == p || t.nodes[x].parent == Some(p))
    ensures SearchInvariant(BackPropagation(t, x, result), board, mover, done + 1)
  {
    var cs := t.nodes[0].children;
    assert ValidAt(t, 0);
    assert ValidAt(t, p);
    ValidTreeIsUpward(t);
    var links := Links(t);
    var r := BackPropagation(t, x, result);
    assert links[p] == Some(0) && links[0] == None;
    forall i | 0 <= i < |t.nodes|
      ensures OnPath(links, x, i) <==> (i == x || i == p || i == 0)
    {
      assert OnPath(links, p, i) <==> (i == p || OnPath(links, 0, i));
      assert OnPath(links, 0, i) <==> i == 0;
    }
    forall c | c in cs
      ensures VisitsOf(r, c) == VisitsOf(t, c) + (if c == p then 1 else 0)
    {
      assert c != 0;
    }
    SumVisitsBump(t, r, cs, p);
  }

  /** The final choice keeps the invariant, and the first root child after
      it is a most visited one. */
  lemma FinishSearch(t: Tree, board: Board, mover: int, done: nat)
    requires SearchInvariant(t, board, mover, done)
    ensures var w := GetWinnerChild(t, 0);
      && SearchInvariant(w.tree, board, mover, done)
      && w.node == w.tree.nodes[0].children[0]
      && w.node in w.tree.nodes[0].children && w.node < |w.tree.nodes|
      && forall c :: c in w.tree.nodes[0].children ==> VisitsOf(w.tree, c) <= VisitsOf(w.tree, w.node)
  {
    var w := GetWinnerChild(t, 0);
    var cs := t.nodes[0].children;
    SelectKeepsInvariant(t, w.tree, board, mover, done);
    WinnerChildMostVisited(t, 0);
    assert MostVisitedFirst(t, cs, w.node);
    assert ValidAt(w.tree, 0);
    forall c | c in w.tree.nodes[0].children
      ensures VisitsOf(w.tree, c) <= VisitsOf(w.tree, w.node)
    {
      var i :| 0 <= i < |cs| && cs[i] == c;
    }
  }

  /** What one selection from the root changes: only the order of the
      root's children; the selected node is in the arena. */
  lemma SelectFacts(t: Tree, uct: (nat, nat, nat) -> real)
    requires ValidTree(t) && VisitedBeforeChildren(t, 0)
    ensures var sel := SelectPromisingNode(t, 0, uct);
      && |sel.tree.nodes| == |t.nodes| && sel.node < |t.nodes|
      && (forall i :: 0 <= i < |t.nodes| ==> sel.tree.nodes[i].state == t.nodes[i].state)
      && (AllPlayers(t) ==> AllPlayers(sel.tree))
  {
    var cs := t.nodes[0].children;
    if cs != [] {
      assert ValidAt(t, 0);
      ChildrenRankable(t, 0);
      assert cs[FirstBest(UctEntries(t, cs, uct))] in cs;
    }
  }

  /** What expanding node `n` changes: new nodes are appended, each with
      the player number of `n`; existing nodes keep their states. */
  lemma ExpandFacts(t: Tree, n: nat)
    requires ValidTree(t) && n < |t.nodes|
    ensures var r := ExpandNode(t, n);
      && |r.nodes| >= |t.nodes|
      && (forall i :: 0 <= i < |t.nodes| ==> r.nodes[i].state == t.nodes[i].state)
      && forall i :: |t.nodes| <= i < |r.nodes| ==> r.nodes[i].state.player == t.nodes[n].state.player
  {
    var r := ExpandNode(t, n);
    var moves := EmptyPlaces(t.nodes[n].state.board);
    forall i | |t.nodes| <= i < |r.nodes|
      ensures r.nodes[i].state.player == t.nodes[n].state.player
    {
      assert Spawned(r.nodes[|t.nodes| + (i - |t.nodes|)], n, t.nodes[n].state, moves[i - |t.nodes|]);
    }
  }

  /** Every node carries one of the two player numbers. */
  ghost predicate AllPlayers(t: Tree) {
    forall i :: 0 <= i < |t.nodes| ==> IsPlayer(t.nodes[i].state.player)
  }

  /** Expands node `p` when its game is still in progress and it has no
      children yet; otherwise the tree is returned as it is. */
  function ExpandIfLeaf(t: Tree, p: nat): (r: Tree)
    requires ValidTree(t) && p < |t.nodes|
    ensures ValidTree(r) && |r.nodes| >= |t.nodes|
    ensures forall i :: 0 <= i < |t.nodes| ==> r.nodes[i].state == t.nodes[i].state
    ensures forall i :: |t.nodes| <= i < |r.nodes| ==> r.nodes[i].state.player == t.nodes[p].state.player
    ensures r.nodes[p].children != [] <==>
      t.nodes[p].children != [] || CheckStatus(t.nodes[p].state.board) == InProgress
    ensures AllPlayers(t) ==> AllPlayers(r)
  {
    ExpandFacts(t, p);
    if CheckStatus(t.nodes[p].state.board) == InProgress && |t.nodes[p].children| == 0 then
      InProgressHasMove(t.nodes[p].state.board);
      ExpandNode(t, p)
    else t
  }

  /** The node to play out from: a random child of `p` when it has
      children, `p` itself otherwise. */
  function ChooseToExplore(t: Tree, p: nat, pick: nat): (x: nat)
    requires ValidTree(t) && p < |t.nodes|
    ensures x < |t.nodes|
    ensures x == p <==> t.nodes[p].children == []
    ensures x != p ==> x in t.nodes[p].children && t.nodes[x].parent == Some(p)
  {
    var cs := t.nodes[p].children;
    assert ValidAt(t, p);
    if |cs| > 0 then
      assert cs[pick % |cs|] in cs;
      cs[pick % |cs|]
    else p
  }

  /** One iteration of the search loop: select a child of the root, expand
      it if it is a leaf whose game is in progress, pick one of its children
      at random (or the node itself when it has none), play out from there
      and backpropagate the result. The root gains exactly one visit and
      keeps its board; every node still carries a player number. */
  function SearchIteration(t: Tree, uct: (nat, nat, nat) -> real, d: Draws): (r: Tree)
    requires ValidTree(t) && VisitedBeforeChildren(t, 0)
    requires AllPlayers(t)
    requires |d.playout| >= 9
    ensures ValidTree(r) && |r.nodes| >= |t.nodes|
    ensures AllPlayers(r)
    ensures r.nodes[0].state.board == t.nodes[0].state.board
    ensures r.nodes[0].state.visits == t.nodes[0].state.visits + 1
  {
    SelectFacts(t, uct);
    var sel := SelectPromisingNode(t, 0, uct);
    var p := sel.node;
    var expanded := ExpandIfLeaf(sel.tree, p);
    var x := ChooseToExplore(expanded, p, d.child);
    var result := SimulateRandomPlayout(expanded.nodes[x].state, d.playout);
    BackPropagationReachesRoot(expanded, x, result);
    BackPropagation(expanded, x, result)
  }

  /** Every iteration keeps the invariant with one more iteration done. */
  lemma IterationKeepsInvariant(t: Tree, board: Board, mover: int, done: nat,
                                uct: (nat, nat, nat) -> real, d: Draws)
    requires SearchInvariant(t, board, mover, done)
    requires |d.playout| >= 9
    ensures VisitedBeforeChildren(t, 0)
    ensures SearchInvariant(SearchIteration(t, uct, d), board, mover, done + 1)
  {
    SelectStep(t, board, mover, done, uct);
    var sel := SelectPromisingNode(t, 0, uct);
    var p := sel.node;
    var expanded := ExpandIfLeaf(sel.tree, p);
    if expanded != sel.tree {
      ExpandKeepsInvariant(sel.tree, p, board, mover, done);
    }
    var x := ChooseToExplore(expanded, p, d.child);
    var result := SimulateRandomPlayout(expanded.nodes[x].state, d.playout);
    BackPropagationKeepsInvariant(expanded, p, x, result, board, mover, done);
  }

  /** Runs the search for `playerNumber` on `board` for `numIterations`
      iterations and returns the board of a most visited child of the root,
      together with the final tree. `draws` holds each iteration's random
      draws. */
  method FindNextMove(board: Board, playerNumber: int, numIterations: nat,
                      uct: (nat, nat, nat) -> real, draws: seq<Draws>)
    returns (next: Board, tree: Tree)
    requires IsPlayer(playerNumber)
    requires HasEmpty(board)
    requires |draws| == numIterations
    requires forall k :: 0 <= k < |draws| ==> |draws[k].playout| >= 9
    ensures OneMove(board, next, playerNumber)
    ensures ValidTree(tree) && tree.nodes[0].state.board == board
    ensures tree.nodes[0].state.visits == numIterations
    ensures SumVisits(tree, tree.nodes[0].children) == numIterations
    ensures |tree.nodes[0].children| > 0
    ensures var w := tree.nodes[0].children[0];
      && w < |tree.nodes|
      && next == tree.nodes[w].state.board
      && forall c :: c in tree.nodes[0].children ==> VisitsOf(tree, c) <= VisitsOf(tree, w)
  {
    var opponent := Flip(playerNumber);
    var t := NewTree(board, opponent);
    SearchStarts(board, playerNumber);
    var iteration := 0;
    while iteration < numIterations
      invariant iteration <= numIterations
      invariant SearchInvariant(t, board, playerNumber, iteration)
    {
      IterationKeepsInvariant(t, board, playerNumber, iteration, uct, draws[iteration]);
      t := SearchIteration(t, uct, draws[iteration]);
      iteration := iteration + 1;
    }
    FinishSearch(t, board, playerNumber, iteration);
    var winner := GetWinnerChild(t, 0);
    tree := winner.tree;
    next := tree.nodes[winner.node].state.board;
  }
}
