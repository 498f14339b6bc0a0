/** The stable descending sort that orders a node's children: Go's
    `sort.SliceStable` with the comparator "value of i greater than value
    of j".

    An entry pairs a node index with the value it is sorted by, as a child
    carries its cached UCT value. A rank is either `Top`, the largest value
    (an unvisited child's UCT value), or a finite real. Entries of equal
    rank keep their original relative order.
 */
module StableSort {

  datatype Rank = Top | Finite(value: real)

  /** The sort's strict comparison: `a` ranks strictly higher than `b`. */
  predicate Above(a: Rank, b: Rank) {
    match a
    case Top => b.Finite?
    case Finite(x) => b.Finite? && x > b.value
  }

  /** Not ranking strictly lower is transitive (ranks are totally ordered). */
  lemma AtLeastTransitive(a: Rank, b: Rank, c: Rank)
    requires !Above(b, a) && !Above(c, b)
    ensures !Above(c, a)
  {
  }

  /** A node index together with the value it is sorted by. */
  datatype Entry = Entry(item: nat, rank: Rank)

  /** The node indices of `s`, in order. */
  function Items(s: seq<Entry>): (r: seq<nat>)
    ensures |r| == |s|
    ensures forall i :: 0 <= i < |s| ==> r[i] == s[i].item
  {
    if s == [] then [] else [s[0].item] + Items(s[1..])
  }

  /** No later entry ranks strictly higher than an earlier one. */
  ghost predicate Descending(s: seq<Entry>) {
    forall i, j :: 0 <= i < j < |s| ==> !Above(s[j].rank, s[i].rank)
  }

  /** The entries of `s` whose rank is `k`, in their order in `s`. */
  function WithRank(s: seq<Entry>, k: Rank): (r: seq<Entry>)
    ensures |r| <= |s|
  {
    if s == [] then []
    else if s[0].rank == k then [s[0]] + WithRank(s[1..], k)
    else WithRank(s[1..], k)
  }

  /** The entries of rank `k` in a sequence with a known first entry. */
  lemma WithRankCons(x: Entry, s: seq<Entry>, k: Rank)
    ensures WithRank([x] + s, k) == (if x.rank == k then [x] else []) + WithRank(s, k)
  {
    assert ([x] + s)[0] == x && ([x] + s)[1..] == s;
  }

  /** Places `x`, which came before every entry of `s`, in front of the
      first entry of `s` that does not rank strictly higher. */
  function Insert(x: Entry, s: seq<Entry>): (r: seq<Entry>)
    ensures |r| == |s| + 1
    ensures r[0] == (if s == [] || !Above(s[0].rank, x.rank) then x else s[0])
  {
    if s == [] || !Above(s[0].rank, x.rank) then [x] + s
    else [s[0]] + Insert(x, s[1..])
  }

  /** Insertion adds `x` and loses nothing. */
  lemma {:induction false} InsertPermutes(x: Entry, s: seq<Entry>)
    ensures multiset(Insert(x, s)) == multiset(s) + multiset{x}
  {
    if s != [] && Above(s[0].rank, x.rank) {
      InsertPermutes(x, s[1..]);
      assert s == [s[0]] + s[1..];
    }
  }

  lemma {:induction false} InsertDescending(x: Entry, s: seq<Entry>)
    requires Descending(s)
    ensures Descending(Insert(x, s))
  {
    var r := Insert(x, s);
    if s == [] || !Above(s[0].rank, x.rank) {
      assert r == [x] + s;
      forall i, j | 0 <= i < j < |r|
        ensures !Above(r[j].rank, r[i].rank)
      {
        if i == 0 && j > 1 {
          AtLeastTransitive(x.rank, s[0].rank, r[j].rank);
        }
      }
    } else {
      var tail := Insert(x, s[1..]);
      InsertDescending(x, s[1..]);
      assert r == [s[0]] + tail;
      assert !Above(tail[0].rank, s[0].rank) by {
        if tail[0] != x {
          assert s[1..][0] == s[1];
        }
      }
      forall i, j | 0 <= i < j < |r|
        ensures !Above(r[j].rank, r[i].rank)
      {
        if i == 0 {
          if j > 1 {
            AtLeastTransitive(s[0].rank, tail[0].rank, tail[j - 1].rank);
          }
        } else {
          assert r[i] == tail[i - 1] && r[j] == tail[j - 1];
        }
      }
    }
  }

  /** The step of InsertWithRank where `x` moves past an entry `y` of a
      different rank: putting `y` in front of both sides keeps the relation. */
  lemma InsertWithRankSkip(x: Entry, y: Entry, u: seq<Entry>, t: seq<Entry>, k: Rank)
    requires y.rank != x.rank
    requires WithRank(u, k) == (if x.rank == k then [x] else []) + WithRank(t, k)
    ensures WithRank([y] + u, k) == (if x.rank == k then [x] else []) + WithRank([y] + t, k)
  {
    WithRankCons(y, u, k);
    WithRankCons(y, t, k);
    var rest := WithRank(t, k);
    if x.rank == k {
      assert WithRank([y] + u, k) == WithRank(u, k);
      assert WithRank([y] + t, k) == rest;
    } else {
      var head := if y.rank == k then [y] else [];
      assert WithRank(u, k) == rest;
      assert WithRank([y] + u, k) == head + rest;
    }
  }

  /** Insertion only skips entries ranking strictly higher than `x`, so `x`
      lands in front of every entry of its own rank. */
  lemma {:induction false} InsertWithRank(x: Entry, s: seq<Entry>, k: Rank)
    ensures WithRank(Insert(x, s), k) == (if x.rank == k then [x] else []) + WithRank(s, k)
  {
    if s == [] || !Above(s[0].rank, x.rank) {
      WithRankCons(x, s, k);
    } else {
      InsertWithRank(x, s[1..], k);
      InsertWithRankSkip(x, s[0], Insert(x, s[1..]), s[1..], k);
      assert s == [s[0]] + s[1..];
    }
  }

  /** The stable descending sort of `s` by insertion: a permutation of `s`
      (see SortStableDescending and SortStableKeepsTies for its order). */
  function SortStable(s: seq<Entry>): (r: seq<Entry>)
    ensures multiset(r) == multiset(s)
    ensures |r| == |s|
  {
    if s == [] then []
    else
      assert s == [s[0]] + s[1..];
      InsertPermutes(s[0], SortStable(s[1..]));
      Insert(s[0], SortStable(s[1..]))
  }

  /** The sort orders by rank from highest to lowest. */
  lemma {:induction false} SortStableDescending(s: seq<Entry>)
    ensures Descending(SortStable(s))
  {
    if s != [] {
      SortStableDescending(s[1..]);
      InsertDescending(s[0], SortStable(s[1..]));
    }
  }

  /** The sort is stable: the entries of each rank keep their original
      relative order. */
  lemma {:induction false} SortStableKeepsTies(s: seq<Entry>, k: Rank)
    ensures WithRank(SortStable(s), k) == WithRank(s, k)
  {
    if s != [] {
      SortStableKeepsTies(s[1..], k);
      InsertWithRank(s[0], SortStable(s[1..]), k);
      WithRankCons(s[0], s[1..], k);
      assert s == [s[0]] + s[1..];
    }
  }

  /** The position of the first entry of highest rank. */
  function FirstBest(s: seq<Entry>): (j: nat)
    requires |s| > 0
    ensures j < |s|
    ensures forall i :: 0 <= i < |s| ==> !Above(s[i].rank, s[j].rank)
    ensures forall i :: 0 <= i < j ==> Above(s[j].rank, s[i].rank)
  {
    if |s| == 1 then 0
    else
      var j := FirstBest(s[1..]) + 1;
      assert forall i :: 1 <= i < |s| ==> s[i] == s[1..][i - 1];
      if Above(s[j].rank, s[0].rank) then j
      else
        assert forall i :: 0 <= i < |s| ==> !Above(s[i].rank, s[0].rank) by {
          forall i | 0 < i < |s|
            ensures !Above(s[i].rank, s[0].rank)
          {
            AtLeastTransitive(s[0].rank, s[j].rank, s[i].rank);
          }
        }
        0
  }

  /** The stable sort puts first the earliest entry of highest rank. */
  lemma {:induction false} SortStableHead(s: seq<Entry>)
    requires |s| > 0
    ensures SortStable(s)[0] == s[FirstBest(s)]
  {
    if |s| > 1 {
      SortStableHead(s[1..]);
    }
  }

  /** The node indices of a sequence with a known first entry. */
  lemma ItemsCons(y: Entry, t: seq<Entry>)
    ensures Items([y] + t) == [y.item] + Items(t)
  {
    assert ([y] + t)[1..] == t;
  }

  /** Insertion adds the index of `x` to the indices of `s`. */
  lemma {:induction false} InsertItems(x: Entry, s: seq<Entry>)
    ensures multiset(Items(Insert(x, s))) == multiset(Items(s)) + multiset{x.item}
  {
    if s == [] || !Above(s[0].rank, x.rank) {
      ItemsCons(x, s);
    } else {
      InsertItems(x, s[1..]);
      ItemsCons(s[0], Insert(x, s[1..]));
      assert Items(s) == [s[0].item] + Items(s[1..]);
    }
  }

  /** The sort permutes the node indices: every child is kept, none is
      duplicated. */
  lemma {:induction false} SortStableItems(s: seq<Entry>)
    ensures multiset(Items(SortStable(s))) == multiset(Items(s))
  {
    if s != [] {
      var rest := SortStable(s[1..]);
      SortStableItems(s[1..]);
      InsertItems(s[0], rest);
      assert SortStable(s) == Insert(s[0], rest);
      assert Items(s) == [s[0].item] + Items(s[1..]);
    }
  }
}
