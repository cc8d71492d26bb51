/**
 * The deterministic parts of the upper-bound heuristics, instantiated with
 * the dense graph: the depth-first merge of the tree heuristic, the greedy
 * heuristic that always merges a pair of least merge cost, the all-pairs
 * distances (Floyd–Warshall) of the grid heuristic, their update after a
 * merge, and the cost the grid heuristic ranks pairs by.
 */
module UpperBound {
  import opened Common
  import opened Trigraph
  import opened BitGraphs
  import BitKernel
  import BitTrees

  // ---------------------------------------------------------------------
  // tree_merge_aux

  /**
   * `tree_merge_aux(u, seen, g, sol)`: a seen vertex gives -1 and changes
   * nothing. Otherwise `u` is marked, each neighbour (black, then red, as
   * listed when its loop starts) is reduced recursively and merged into the
   * running representative `r`, `r` is merged into `u`, and `u` is returned.
   * Marks are only added, the vertices merged away are vertices first seen
   * by this call other than `u`, which stays active, and one pair is logged
   * per vertex removed.
   */
  method TreeMergeAux(u: int, seen: seq<bool>, g: BitGraph, sol: ContrSeq) returns (r: int, seen': seq<bool>, sol': ContrSeq)
    requires g.Valid() && |seen| == g.n && 0 <= u < g.n && (!seen[u] ==> u in g.mask)
    modifies g
    ensures g.Valid() && g.fullTww >= old(g.fullTww)
    ensures Marks(seen, seen') && Progress(old(g.mask), sol, seen, g.mask, sol', seen')
    ensures seen[u] ==> r == -1 && seen' == seen && sol' == sol && g.mask == old(g.mask)
    ensures !seen[u] ==> r == u && seen'[u] && u in g.mask
    decreases CountFalse(seen), 2
  {
    if seen[u] {
      return -1, seen, sol;
    }
    seen' := seen[u := true];
    var acc := -1;
    var black := g.adj[u];
    ghost var m0 := g.mask;
    acc, seen', sol' := MergeRow(u, black, acc, seen, seen', g, sol);
    ghost var m1, s1, seen1 := g.mask, sol', seen';
    var redRow := g.red[u];
    acc, seen', sol' := MergeRow(u, redRow, acc, seen, seen', g, sol');
    ghost var m2, s2, seen2 := g.mask, sol', seen';
    r, sol' := BitTrees.AuxMerge(g, u, acc, sol');
    ProgressTrans(m0, sol, seen, m1, s1, seen1, m2, s2, seen2);
    ProgressTrans(m0, sol, seen, m2, s2, seen2, g.mask, sol', seen');
  }

  /** Marks are only added. */
  ghost predicate Marks(seen: seq<bool>, seen': seq<bool>)
  {
    |seen'| == |seen| && forall x :: 0 <= x < |seen| && seen[x] ==> seen'[x]
  }

  /**
   * From mask `m0` and log `s0` to `m` and `s`: vertices are only
   * removed, each one unmarked in `base` and marked in `seen`, and one
   * pair was logged per removal.
   */
  ghost predicate Progress(m0: set<int>, s0: ContrSeq, base: seq<bool>, m: set<int>, s: ContrSeq, seen: seq<bool>)
  {
    && m <= m0 && |m| <= |m0| && |s| == |s0| + |m0| - |m| && s[..|s0|] == s0
    && (forall x :: x in m0 - m ==> 0 <= x < |base| && !base[x] && 0 <= x < |seen| && seen[x])
  }

  lemma ProgressTrans(m0: set<int>, s0: ContrSeq, base: seq<bool>, m1: set<int>, s1: ContrSeq, seen1: seq<bool>,
                      m2: set<int>, s2: ContrSeq, seen2: seq<bool>)
    requires Progress(m0, s0, base, m1, s1, seen1) && Progress(m1, s1, base, m2, s2, seen2) && Marks(seen1, seen2)
    ensures Progress(m0, s0, base, m2, s2, seen2)
  {
    assert s2[..|s0|] == s2[..|s1|][..|s0|];
    assert m0 - m2 == (m0 - m1) + (m1 - m2);
  }

  /** Progress against a marking holds against any marking with fewer marks. */
  lemma ProgressBase(m0: set<int>, s0: ContrSeq, base: seq<bool>, base': seq<bool>, m: set<int>, s: ContrSeq, seen: seq<bool>)
    requires Progress(m0, s0, base', m, s, seen) && Marks(base, base')
    ensures Progress(m0, s0, base, m, s, seen)
  {
  }

  /**
   * One of the two loops of `tree_merge_aux` on `u`: each vertex of `row`
   * in ascending order is reduced and merged into the representative
   * `acc` (-1 while there is none). `seen0` is the marking before `u`.
   */
  method MergeRow(u: int, row: set<int>, acc: int, ghost seen0: seq<bool>, seen: seq<bool>, g: BitGraph, sol: ContrSeq)
    returns (acc': int, seen': seq<bool>, sol': ContrSeq)
    requires TreeInv(g, u, acc, seen0, seen) && row <= g.mask - {u}
    modifies g
    ensures TreeInv(g, u, acc', seen0, seen') && g.fullTww >= old(g.fullTww)
    ensures Marks(seen, seen') && Progress(old(g.mask), sol, seen0, g.mask, sol', seen')
    decreases CountFalse(seen0), 1
  {
    acc', seen', sol' := acc, seen, sol;
    ghost var m0 := g.mask;
    for v := 0 to g.n
      invariant TreeInv(g, u, acc', seen0, seen') && g.fullTww >= old(g.fullTww)
      invariant Marks(seen, seen') && Progress(m0, sol, seen0, g.mask, sol', seen')
      invariant forall x :: x in row && !seen'[x] ==> x in g.mask
    {
      if v in row {
        ghost var m1, s1, seen1 := g.mask, sol', seen';
        acc', seen', sol' := RowStep(u, v, acc', seen0, seen', g, sol');
        ProgressTrans(m0, sol, seen0, m1, s1, seen1, g.mask, sol', seen');
      }
    }
  }

  /** The body of a loop of `tree_merge_aux`: reduce `v`, then merge the result into `acc`. */
  method RowStep(u: int, v: int, acc: int, ghost seen0: seq<bool>, seen: seq<bool>, g: BitGraph, sol: ContrSeq)
    returns (acc': int, seen': seq<bool>, sol': ContrSeq)
    requires TreeInv(g, u, acc, seen0, seen) && 0 <= v < g.n && v != u && (!seen[v] ==> v in g.mask)
    modifies g
    ensures TreeInv(g, u, acc', seen0, seen') && g.fullTww >= old(g.fullTww)
    ensures Marks(seen, seen') && Progress(old(g.mask), sol, seen0, g.mask, sol', seen')
    decreases CountFalse(seen0), 0
  {
    CountFalseShrinks(seen0, seen, u);
    var x;
    x, seen', sol' := TreeMergeAux(v, seen, g, sol);
    ghost var m1, s1 := g.mask, sol';
    ProgressBase(old(g.mask), sol, seen0, seen, m1, s1, seen');
    acc', sol' := BitTrees.AuxMerge(g, acc, x, sol');
    ProgressTrans(old(g.mask), sol, seen0, m1, s1, seen', g.mask, sol', seen');
  }

  /**
   * While `tree_merge_aux` works on `u`: `u` is marked and active, marks
   * are only added to `seen0`, the marking before `u`, and the
   * representative `acc` is -1 or an active vertex first seen under `u`.
   */
  ghost predicate TreeInv(g: BitGraph, u: int, acc: int, seen0: seq<bool>, seen: seq<bool>)
    reads g
  {
    && g.Valid() && |seen0| == g.n && Marks(seen0, seen)
    && 0 <= u < g.n && !seen0[u] && seen[u] && u in g.mask
    && (acc == -1 || (acc in g.mask && acc != u && 0 <= acc < g.n && seen[acc] && !seen0[acc]))
  }

  // ---------------------------------------------------------------------
  // greedy_mincost

  /** `(x, y)` comes before `(u, v)` in the nested ascending loops over the vertices. */
  predicate Before(x: int, y: int, u: int, v: int)
  {
    x < u || (x == u && y < v)
  }

  /** The pair `(x, y)` is one of the pairs the greedy heuristic weighs. */
  predicate Pair(mask: set<int>, x: int, y: int)
  {
    x in mask && y in mask && 0 <= x < y
  }

  /** The size of `merge_cost(x, y)` for each pair of vertex indices. */
  function CostOf(s: Shape): (int, int) -> int
  {
    (x, y) => if Index(s, x) && Index(s, y) then |MergeCost(s, x, y)| else 0
  }

  /**
   * After the pairs before `(u, v)` of `mask`, weighed by `cost`: `bu` is
   * -1 when there was none, and otherwise `(bu, bv)` is a pair among them
   * whose cost `c` is least, and strictly less than that of every pair
   * before it.
   */
  ghost predicate BestSoFar(mask: set<int>, cost: (int, int) -> int, bu: int, bv: int, c: int, u: int, v: int)
  {
    && (bu == -1 <==> forall x, y :: Pair(mask, x, y) ==> !Before(x, y, u, v))
    && (bu != -1 ==>
          && Pair(mask, bu, bv) && Before(bu, bv, u, v) && c == cost(bu, bv)
          && (forall x, y :: Pair(mask, x, y) && Before(x, y, u, v) ==> c <= cost(x, y))
          && (forall x, y :: Pair(mask, x, y) && Before(x, y, bu, bv) ==> c < cost(x, y)))
  }

  /**
   * The double loop of `greedy_mincost`: over the active pairs `u < v` in
   * ascending order, the first pair whose `merge_cost` is smallest, with
   * that cost as the hint.
   */
  method BestPair(g: BitGraph) returns (u: int, v: int, hint: set<int>)
    requires g.Valid() && |g.mask| >= 2
    ensures Pair(g.mask, u, v) && hint == MergeCost(g.State(), u, v)
    ensures forall x, y :: Pair(g.mask, x, y) ==> |hint| <= |MergeCost(g.State(), x, y)|
    ensures forall x, y :: Pair(g.mask, x, y) && Before(x, y, u, v) ==> |hint| < |MergeCost(g.State(), x, y)|
  {
    ghost var s := g.State();
    ghost var cost := CostOf(s);
    u, v, hint := -1, -1, {};
    for a := 0 to g.n
      invariant BestSoFar(s.mask, cost, u, v, |hint|, a, 0)
      invariant u != -1 ==> Index(s, u) && Index(s, v) && hint == MergeCost(s, u, v)
    {
      if a in g.mask {
        u, v, hint := BestWith(g, a, u, v, hint);
      } else {
        BestSkip(s.mask, cost, u, v, |hint|, a);
      }
    }
    SubsetBelow(g.mask, g.n);
    Nonempty(g.mask);
    var x :| x in g.mask;
    assert |g.mask - {x}| == |g.mask| - 1;
    Nonempty(g.mask - {x});
    var y :| y in g.mask - {x};
    assert Pair(s.mask, x, y) || Pair(s.mask, y, x);
    BestAll(s, u, v, |hint|, g.n);
  }

  /** Once every pair is weighed, the best pair is best among all pairs. */
  lemma BestAll(s: Shape, u: int, v: int, c: int, n: int)
    requires WellFormed(s) && BestSoFar(s.mask, CostOf(s), u, v, c, n, 0) && u != -1
    requires forall x :: x in s.mask ==> x < n
    ensures forall x, y :: Pair(s.mask, x, y) ==> c <= |MergeCost(s, x, y)|
    ensures forall x, y :: Pair(s.mask, x, y) && Before(x, y, u, v) ==> c < |MergeCost(s, x, y)|
  {
    forall x, y | Pair(s.mask, x, y)
      ensures c <= |MergeCost(s, x, y)|
    {
      assert Before(x, y, n, 0);
      assert CostOf(s)(x, y) == |MergeCost(s, x, y)|;
    }
    forall x, y | Pair(s.mask, x, y) && Before(x, y, u, v)
      ensures c < |MergeCost(s, x, y)|
    {
      assert CostOf(s)(x, y) == |MergeCost(s, x, y)|;
    }
  }

  /** The inner loop of `greedy_mincost` for the active vertex `a`. */
  method BestWith(g: BitGraph, a: int, bu: int, bv: int, h: set<int>) returns (bu': int, bv': int, h': set<int>)
    requires g.Valid() && a in g.mask && BestSoFar(g.mask, CostOf(g.State()), bu, bv, |h|, a, 0)
    requires bu != -1 ==> Index(g.State(), bu) && Index(g.State(), bv) && h == MergeCost(g.State(), bu, bv)
    ensures BestSoFar(g.mask, CostOf(g.State()), bu', bv', |h'|, a + 1, 0)
    ensures bu' != -1 ==> Index(g.State(), bu') && Index(g.State(), bv') && h' == MergeCost(g.State(), bu', bv')
  {
    ghost var s := g.State();
    bu', bv', h' := bu, bv, h;
    for b := 0 to g.n
      invariant BestSoFar(s.mask, CostOf(s), bu', bv', |h'|, a, b)
      invariant bu' != -1 ==> Index(s, bu') && Index(s, bv') && h' == MergeCost(s, bu', bv')
    {
      bu', bv', h' := Weigh(g, a, b, bu', bv', h');
    }
    SubsetBelow(g.mask, g.n);
    BestNext(s.mask, CostOf(s), bu', bv', |h'|, a, g.n);
  }

  /** One pass of the inner loop of `greedy_mincost`: weighs `(a, b)` when it is an active pair. */
  method Weigh(g: BitGraph, a: int, b: int, bu: int, bv: int, h: set<int>) returns (bu': int, bv': int, h': set<int>)
    requires g.Valid() && BestSoFar(g.mask, CostOf(g.State()), bu, bv, |h|, a, b)
    requires bu != -1 ==> Index(g.State(), bu) && Index(g.State(), bv) && h == MergeCost(g.State(), bu, bv)
    ensures BestSoFar(g.mask, CostOf(g.State()), bu', bv', |h'|, a, b + 1)
    ensures bu' != -1 ==> Index(g.State(), bu') && Index(g.State(), bv') && h' == MergeCost(g.State(), bu', bv')
  {
    bu', bv', h' := bu, bv, h;
    if b in g.mask && a in g.mask && a < b {
      var tmp := g.MergeCost(a, b);
      assert CostOf(g.State())(a, b) == |tmp|;
      if bu' == -1 || |tmp| < |h'| {
        bu', bv', h' := a, b, tmp;
      }
    }
    BestStep(g.mask, CostOf(g.State()), bu, bv, |h|, a, b, bu', bv', |h'|);
  }

  /** Weighing the pair `(a, b)` the way the inner loop does keeps `BestSoFar`. */
  lemma BestStep(mask: set<int>, cost: (int, int) -> int, bu: int, bv: int, c: int, a: int, b: int, bu': int, bv': int, c': int)
    requires BestSoFar(mask, cost, bu, bv, c, a, b)
    requires Pair(mask, a, b) && (bu == -1 || cost(a, b) < c) ==> bu' == a && bv' == b && c' == cost(a, b)
    requires !(Pair(mask, a, b) && (bu == -1 || cost(a, b) < c)) ==> bu' == bu && bv' == bv && c' == c
    ensures BestSoFar(mask, cost, bu', bv', c', a, b + 1)
  {
    if Pair(mask, a, b) && (bu == -1 || cost(a, b) < c) {
      forall x, y | Pair(mask, x, y) && Before(x, y, a, b + 1)
        ensures c' <= cost(x, y)
      {
        if x != a || y != b {
          assert Before(x, y, a, b);
        }
      }
    } else {
      forall x, y | Pair(mask, x, y) && Before(x, y, a, b + 1)
        ensures bu != -1 && c <= cost(x, y)
      {
        if x != a || y != b {
          assert Before(x, y, a, b);
        }
      }
    }
  }

  /** At the end of the inner loop for `a`, every pair `(a, y)` has been weighed. */
  lemma BestNext(mask: set<int>, cost: (int, int) -> int, bu: int, bv: int, c: int, a: int, n: int)
    requires BestSoFar(mask, cost, bu, bv, c, a, n) && forall x :: x in mask ==> x < n
    ensures BestSoFar(mask, cost, bu, bv, c, a + 1, 0)
  {
    forall x, y | Pair(mask, x, y)
      ensures Before(x, y, a, n) <==> Before(x, y, a + 1, 0)
    {
      assert y < n;
    }
  }

  /** An inactive `a` adds no pair. */
  lemma BestSkip(mask: set<int>, cost: (int, int) -> int, bu: int, bv: int, c: int, a: int)
    requires BestSoFar(mask, cost, bu, bv, c, a, 0) && a !in mask
    ensures BestSoFar(mask, cost, bu, bv, c, a + 1, 0)
  {
    forall x, y | Pair(mask, x, y)
      ensures Before(x, y, a, 0) <==> Before(x, y, a + 1, 0)
    {
      assert x != a;
    }
  }

  /**
   * `greedy_mincost(g)` on a copy of the input, which it leaves unchanged:
   * kernelize, then, while two vertices remain, merge the best pair and
   * kernelize again. Every step removes one vertex and logs one pair, so
   * the sequence reduces the graph to a single vertex (none if it had
   * none), and the width returned is at least the input's.
   */
  method GreedyMincost(gInit: BitGraph) returns (width: int, sol: ContrSeq, ghost last: Shape)
    requires gInit.Valid()
    ensures width >= gInit.fullTww
    ensures last.mask <= gInit.mask && |last.mask| == Min(|gInit.mask|, 1)
    ensures |sol| == |gInit.mask| - |last.mask|
  {
    var g := new BitGraph.Copy(gInit);
    sol := BitKernel.Kernelize(g);
    while g.ActualN() > 1
      invariant fresh(g) && g.Valid() && g.fullTww >= gInit.fullTww
      invariant g.mask <= gInit.mask && (gInit.mask != {} ==> g.mask != {})
      invariant |sol| == |gInit.mask| - |g.mask|
      decreases |g.mask|
    {
      sol := GreedyStep(g, sol);
    }
    width, last := g.fullTww, g.State();
  }

  /**
   * One pass of the loop of `greedy_mincost`: merge the best pair, log it,
   * and kernelize, logging what kernelize merges.
   */
  method GreedyStep(g: BitGraph, sol: ContrSeq) returns (sol': ContrSeq)
    requires g.Valid() && |g.mask| >= 2
    modifies g
    ensures g.Valid() && g.fullTww >= old(g.fullTww)
    ensures g.mask <= old(g.mask) && g.mask != {} && |g.mask| < |old(g.mask)|
    ensures |sol'| == |sol| + |old(g.mask)| - |g.mask|
  {
    var u, v, hint := BestPair(g);
    ghost var s0 := g.State();
    g.Merge(u, v, hint);
    MergedActive(s0, u, v);
    var tmp := BitKernel.Kernelize(g);
    sol' := sol + [(u, v)] + tmp;
  }
}
