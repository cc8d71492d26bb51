// The deterministic parts of src/lower_bound.h over the dense contraction
// graph: `greedy_lb`, and how `subgraph_lb` and the loops around it turn
// sampled subgraph searches into a lower bound. The random connected
// sample of `subgraph_lb` is a parameter `sample(round, size)`, and the
// wall clock is the number of rounds it lets a loop run.

module LowerBound {
  import opened Common
  import opened Trigraph
  import opened BitGraphs
  import Bab

  /**
   * What the sampling of `subgraph_lb` returns for every round and size:
   * a nonempty set of active vertices (the search needs at least one).
   */
  ghost predicate Sampler(sample: (nat, int) -> set<int>, mask: set<int>)
  {
    forall r: nat, k: int :: sample(r, k) != {} && sample(r, k) <= mask
  }

  /**
   * `subgraph_lb(g, k, prev_lb)` once the sample `h` is drawn: search the
   * subgraph on `h` from `min_score = INFTY` with `prev_lb` as the bound
   * that stops it early, and report `prev_lb` when the search finds
   * nothing. `found` is the search result.
   */
  method SubgraphLb(g: BitGraph, h: set<int>, prevLb: int) returns (r: int, ghost found: Bab.Score)
    requires g.Valid() && h != {} && h <= g.mask
    ensures Bab.Sane(found)
    ensures found.0 == INFTY ==> r == prevLb
    ensures found.0 != INFTY ==> r == found.0
    ensures r == prevLb || r < INFTY
    // A finite result is at least every red degree inside the sample.
    ensures found.0 != INFTY ==> forall x :: x in h ==> |g.red[x] * h| <= r
  {
    var sub := g.Subgraph(h);
    var res, minScore, mem, kernel, opts, tried, hist := Bab.MemBab(sub, prevLb, INFTY, map[]);
    found := res;
    r := if res.0 == INFTY then prevLb else res.0;
  }

  /** The running maximum of `lb0` and the samples, taken left to right. */
  function Best(lb0: int, lbs: seq<int>): int
  {
    if lbs == [] then lb0 else Max(Best(lb0, lbs[..|lbs| - 1]), lbs[|lbs| - 1])
  }

  /** `Best` bounds `lb0` and every sample, and is one of them. */
  lemma {:induction false} BestFacts(lb0: int, lbs: seq<int>)
    ensures lb0 <= Best(lb0, lbs)
    ensures forall i :: 0 <= i < |lbs| ==> lbs[i] <= Best(lb0, lbs)
    ensures Best(lb0, lbs) == lb0 || Best(lb0, lbs) in lbs
  {
    if lbs != [] {
      var init := lbs[..|lbs| - 1];
      BestFacts(lb0, init);
      assert forall i :: 0 <= i < |init| ==> lbs[i] == init[i];
    }
  }

  /** The best value so far never decreases as samples come in. */
  lemma {:induction false} BestGrows(lb0: int, lbs: seq<int>, j: nat)
    requires j <= |lbs|
    ensures Best(lb0, lbs[..j]) <= Best(lb0, lbs)
  {
    if j < |lbs| {
      var init := lbs[..|lbs| - 1];
      assert init[..j] == lbs[..j];
      BestGrows(lb0, init, j);
    } else {
      assert lbs[..j] == lbs;
    }
  }

  /** `Best` of one more sample. */
  lemma BestAppend(lb0: int, lbs: seq<int>, lb: int)
    ensures Best(lb0, lbs + [lb]) == Max(Best(lb0, lbs), lb)
  {
    assert (lbs + [lb])[..|lbs|] == lbs;
  }

  /** `iter_subgraph_lb(g, k, it)`: the best of `it` samples of size `k`, each with `prev_lb = 0`. */
  method IterSubgraphLb(g: BitGraph, k: int, it: int, sample: (nat, int) -> set<int>)
    returns (best: int, ghost lbs: seq<int>)
    requires g.Valid() && Sampler(sample, g.mask)
    ensures best >= 0
    ensures |lbs| == Max(it, 0) && best == Best(0, lbs)
    ensures forall i :: 0 <= i < |lbs| ==> lbs[i] <= best
  {
    best, lbs := 0, [];
    var i := 0;
    while i < it
      invariant 0 <= i && |lbs| == i && best == Best(0, lbs)
      invariant if it >= 0 then i <= it else i == 0
    {
      var lb, found := SubgraphLb(g, sample(i, k), 0);
      BestAppend(0, lbs, lb);
      best, lbs := Max(best, lb), lbs + [lb];
      i := i + 1;
    }
    BestFacts(0, lbs);
  }

  /**
   * `timed_iter_subgraph_lb(g, k, sec_max)`: samples of size `k` while the
   * clock allows (`rounds` times), each searched with the best bound so
   * far as `prev_lb`.
   */
  method TimedIterSubgraphLb(g: BitGraph, k: int, rounds: nat, sample: (nat, int) -> set<int>)
    returns (best: int, ghost lbs: seq<int>)
    requires g.Valid() && Sampler(sample, g.mask)
    ensures best >= 0
    ensures |lbs| == rounds && best == Best(0, lbs)
    ensures forall i :: 0 <= i < |lbs| ==> lbs[i] <= best
  {
    best, lbs := 0, [];
    var i := 0;
    while i < rounds
      invariant i <= rounds && |lbs| == i && best == Best(0, lbs)
    {
      var lb, found := SubgraphLb(g, sample(i, k), best);
      BestAppend(0, lbs, lb);
      best, lbs := Max(best, lb), lbs + [lb];
      i := i + 1;
    }
    BestFacts(0, lbs);
  }

  /**
   * `timed_iter_subgraph_lb_early_exit(g, best_score, lb0, k, sec_max)`:
   * like the loop above from `lb0`, each sample with `prev_lb = 0`, but it
   * stops as soon as the bound reaches `best_score`.
   */
  method TimedIterSubgraphLbEarlyExit(g: BitGraph, bestScore: int, lb0: int, k: int, rounds: nat,
                                      sample: (nat, int) -> set<int>)
    returns (bestLb: int, ghost lbs: seq<int>)
    requires g.Valid() && Sampler(sample, g.mask)
    ensures |lbs| <= rounds && bestLb == Best(lb0, lbs)
    ensures bestLb >= lb0
    ensures forall i :: 0 <= i < |lbs| ==> lbs[i] <= bestLb
    // It stops early only once the bound reaches `best_score`, and not before.
    ensures |lbs| < rounds ==> bestLb >= bestScore
    ensures forall j :: 0 < j < |lbs| ==> Best(lb0, lbs[..j]) < bestScore
  {
    bestLb, lbs := lb0, [];
    var i := 0;
    while i < rounds
      invariant i <= rounds && |lbs| == i && bestLb == Best(lb0, lbs)
      invariant forall j :: 0 < j <= i ==> Best(lb0, lbs[..j]) < bestScore
    {
      var lb, found := SubgraphLb(g, sample(i, k), 0);
      BestAppend(lb0, lbs, lb);
      assert (lbs + [lb])[..i] == lbs;
      assert forall j :: 0 < j <= i ==> (lbs + [lb])[..j] == lbs[..j];
      bestLb, lbs := Max(bestLb, lb), lbs + [lb];
      i := i + 1;
      if bestLb >= bestScore {
        break;
      }
      assert lbs[..i] == lbs;
    }
    BestFacts(lb0, lbs);
  }

  /** How many samples failed to beat the best value before them: each grows the sample size by one. */
  function Misses(lbs: seq<int>): (r: nat)
    ensures r <= |lbs|
  {
    if lbs == [] then 0
    else
      var init := lbs[..|lbs| - 1];
      Misses(init) + (if lbs[|lbs| - 1] <= Best(0, init) then 1 else 0)
  }

  lemma MissesAppend(lbs: seq<int>, lb: int)
    ensures Misses(lbs + [lb]) == Misses(lbs) + (if lb <= Best(0, lbs) then 1 else 0)
  {
    assert (lbs + [lb])[..|lbs|] == lbs;
  }

  /**
   * `timed_growing_subgraph_lb(g, s0, sec_max)`: each round samples a
   * subgraph of size `s0` and searches it with the best value so far as
   * `prev_lb`; a sample that does not beat the best grows `s0` by one,
   * and the loop ends when `s0` reaches the number of active vertices or
   * the clock (`rounds`) runs out. `size` is the final `s0`.
   */
  method TimedGrowingSubgraphLb(g: BitGraph, s0: int, rounds: nat, sample: (nat, int) -> set<int>)
    returns (best: int, ghost lbs: seq<int>, ghost size: int)
    requires g.Valid() && Sampler(sample, g.mask)
    ensures |lbs| <= rounds && best == Best(0, lbs) && best >= 0
    ensures size == s0 + Misses(lbs)
    ensures |lbs| < rounds ==> size >= |g.mask|
  {
    best, lbs := 0, [];
    var s := s0;
    var i := 0;
    while i < rounds
      invariant i <= rounds && |lbs| == i && best == Best(0, lbs)
      invariant s == s0 + Misses(lbs)
    {
      var lb, found := SubgraphLb(g, sample(i, s), best);
      BestAppend(0, lbs, lb);
      MissesAppend(lbs, lb);
      if lb <= best {
        s := s + 1;
      } else {
        best := lb;
      }
      lbs := lbs + [lb];
      i := i + 1;
      if s >= g.ActualN() {
        break;
      }
    }
    BestFacts(0, lbs);
    size := s;
  }

  /**
   * The vertices adjacent in black to exactly one of `u` and `v`, without
   * `u` and `v`: what `greedy_lb` measures for the pair.
   */
  function BlackDiff(s: Shape, u: int, v: int): set<int>
    requires Index(s, u) && Index(s, v)
  {
    set x | x in s.adj[u] + s.adj[v] && (x in s.adj[u]) != (x in s.adj[v]) && x != u && x != v
  }

  /** No pair difference reaches INFTY: it only holds vertex numbers below the row count. */
  lemma BlackDiffSmall(s: Shape, u: int, v: int)
    requires WellFormed(s) && u in s.mask && v in s.mask && |s.adj| <= LongBitsets.MAX_SIZE
    ensures |BlackDiff(s, u, v)| < INFTY
  {
    SubsetBelow(BlackDiff(s, u, v), |s.adj|);
  }

  /** `lb` bounds the difference of every pair of distinct active vertices whose first vertex is below `bound`. */
  ghost predicate BoundsPairs(s: Shape, lb: int, bound: int)
    requires WellFormed(s)
  {
    forall u, v :: u in s.mask && v in s.mask && u != v && u < bound ==> lb <= |BlackDiff(s, u, v)|
  }

  /** `lb` bounds the difference of `u` with every other active vertex below `bound`. */
  ghost predicate BoundsRow(s: Shape, lb: int, u: int, bound: int)
    requires WellFormed(s) && u in s.mask
  {
    forall v :: v in s.mask && v != u && v < bound ==> lb <= |BlackDiff(s, u, v)|
  }

  /** `lb` is still INFTY or is the difference of the pair `wit` of distinct active vertices. */
  ghost predicate Attained(s: Shape, lb: int, wit: Contr)
    requires WellFormed(s)
  {
    lb == INFTY || (wit.0 in s.mask && wit.1 in s.mask && wit.0 != wit.1 && lb == |BlackDiff(s, wit.0, wit.1)|)
  }

  lemma TwoMembers(mask: set<int>, a: int, b: int)
    requires a in mask && b in mask && a != b
    ensures |mask| >= 2
  {
    assert |mask - {a}| == |mask| - 1;
    assert b in mask - {a};
  }

  /**
   * `greedy_lb(g)`: the least `|(N(u) Δ N(v)) \ {u, v}|` over ordered
   * pairs of distinct active vertices, black edges only, and INFTY when
   * there is no such pair.
   */
  method GreedyLb(g: BitGraph) returns (lb: int)
    requires g.Valid()
    ensures forall u, v :: u in g.mask && v in g.mask && u != v ==> lb <= |BlackDiff(g.State(), u, v)|
    ensures |g.mask| < 2 ==> lb == INFTY
    ensures |g.mask| >= 2 ==> exists u, v :: u in g.mask && v in g.mask && u != v && lb == |BlackDiff(g.State(), u, v)|
  {
    ghost var s := g.State();
    lb := INFTY;
    ghost var wit: Contr := (-1, -1);
    for u := 0 to g.n
      invariant BoundsPairs(s, lb, u) && Attained(s, lb, wit)
    {
      if u in g.mask {
        lb, wit := PairsOf(g, s, u, lb, wit);
      }
    }
    assert BoundsPairs(s, lb, g.n);
    if |g.mask| >= 2 {
      var p := Bab.TwoActive(g.mask);
      BlackDiffSmall(s, p.0, p.1);
    }
    if lb != INFTY {
      TwoMembers(g.mask, wit.0, wit.1);
    }
  }

  /** The inner loop of `greedy_lb` for one active `u`. */
  method PairsOf(g: BitGraph, ghost s: Shape, u: int, lb: int, ghost wit: Contr) returns (lb': int, ghost wit': Contr)
    requires g.Valid() && s == g.State() && u in s.mask
    requires BoundsPairs(s, lb, u) && Attained(s, lb, wit)
    ensures BoundsPairs(s, lb', u + 1) && Attained(s, lb', wit')
  {
    lb', wit' := lb, wit;
    for v := 0 to g.n
      invariant lb' <= lb && BoundsRow(s, lb', u, v) && Attained(s, lb', wit')
    {
      lb', wit' := Consider(g, s, u, v, lb', wit');
    }
    assert BoundsRow(s, lb', u, g.n);
    BoundsNext(s, lb, lb', u);
  }

  /** One pair `(u, v)` of `greedy_lb`: keep its difference if it is smaller. */
  method Consider(g: BitGraph, ghost s: Shape, u: int, v: int, lb: int, ghost wit: Contr) returns (lb': int, ghost wit': Contr)
    requires g.Valid() && s == g.State() && u in s.mask && 0 <= v < g.n
    requires BoundsRow(s, lb, u, v) && Attained(s, lb, wit)
    ensures lb' <= lb && BoundsRow(s, lb', u, v + 1) && Attained(s, lb', wit')
  {
    lb', wit' := lb, wit;
    if v in g.mask && u != v {
      var tmp := BlackDiff(g.State(), u, v);
      BlackDiffSmall(s, u, v);
      if |tmp| < lb' {
        lb', wit' := |tmp|, (u, v);
      }
    }
    forall y | y in s.mask && y != u && y < v + 1
      ensures lb' <= |BlackDiff(s, u, y)|
    {
      if y < v {
        assert lb <= |BlackDiff(s, u, y)|;
      }
    }
  }

  /** Finishing the row of `u` extends the bound to every pair whose first vertex is at most `u`. */
  lemma BoundsNext(s: Shape, lb: int, lb': int, u: int)
    requires WellFormed(s) && u in s.mask && lb' <= lb
    requires BoundsPairs(s, lb, u) && BoundsRow(s, lb', u, |s.adj|)
    ensures BoundsPairs(s, lb', u + 1)
  {
    forall x, y | x in s.mask && y in s.mask && x != y && x < u + 1
      ensures lb' <= |BlackDiff(s, x, y)|
    {
      if x == u {
        assert y < |s.adj|;
      }
    }
  }
}
