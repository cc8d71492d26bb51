// `cc_bab_with_lb` of src/bab.h: the exact search run on each connected
// component of the sparse graph in turn, with a lower bound that grows
// from one component to the next, and the components joined at the end
// through one representative each. The heuristic `best_heur`, the random
// sampling of `subgraph_lb` and the clock are parameters.

module Components {
  import opened Common
  import opened Trigraph
  import opened Graphs
  import BitGraphs
  import BitTrees
  import Bab
  import LowerBound
  import LongBitsets

  /** `LB_K`: the size of the sampled subgraphs. */
  const LB_K: int := 25

  /** `LB_TIME_S` of the default build: the seconds of lower-bound sampling shared by all components. */
  const LB_TIME_S: int := 5

  /** Every pair of `s` names two vertices of `c`. */
  ghost predicate PairsIn(s: ContrSeq, c: set<int>)
  {
    forall p :: p in s ==> p.0 in c && p.1 in c
  }

  /**
   * What `best_heur` promises about a graph: an upper bound and a
   * sequence of contractions between its active vertices, with at least
   * one contraction when two or more vertices are active.
   */
  ghost predicate Heuristic(heur: Shape -> (int, ContrSeq))
  {
    forall s :: WellFormed(s) ==> PairsIn(heur(s).1, s.mask) && (|s.mask| >= 2 ==> heur(s).1 != [])
  }

  /**
   * What the sampling of `subgraph_lb` gives on a graph whose active
   * set is `m`, for every round and size: a nonempty set of active vertices.
   */
  ghost predicate Samples(sample: (set<int>, nat, int) -> set<int>)
  {
    forall m, r: nat, k :: m != {} ==> sample(m, r, k) != {} && sample(m, r, k) <= m
  }

  /** A sequence over the numbers of a component, renamed through `m` to vertices of the graph. */
  function Mapped(s: ContrSeq, m: seq<int>): (r: ContrSeq)
    requires PairsBelow(s, |m|)
    ensures |r| == |s|
  {
    seq(|s|, i requires 0 <= i < |s| => (m[s[i].0], m[s[i].1]))
  }

  /** Renaming through a numbering of the component `cc` gives pairs of vertices of `cc`. */
  lemma MappedIn(s: ContrSeq, m: seq<int>, cc: set<int>)
    requires PairsBelow(s, |m|) && forall i :: 0 <= i < |m| ==> m[i] in cc
    ensures PairsIn(Mapped(s, m), cc)
  {
    forall p | p in Mapped(s, m)
      ensures p.0 in cc && p.1 in cc
    {
      var i :| 0 <= i < |s| && Mapped(s, m)[i] == p;
      assert s[i] in s;
    }
  }

  /**
   * The loop `for (auto [u, v]: s) res.emplace_back(m[u], m[v])`, for a
   * sequence over the first `k` numbers.
   */
  method AppendMapped(res: ContrSeq, s: ContrSeq, m: seq<int>, ghost k: int) returns (res': ContrSeq)
    requires 0 <= k <= |m| && PairsBelow(s, k)
    ensures res' == res + Mapped(s, m[..k])
  {
    res' := res;
    for i := 0 to |s|
      invariant res' == res + Mapped(s[..i], m[..k])
    {
      assert s[i] in s;
      assert s[..i + 1] == s[..i] + [s[i]];
      res' := res' + [(m[s[i].0], m[s[i].1])];
    }
    assert s[..|s|] == s;
  }

  /** The pairs `(repr[i], repr[i - 1])` for `i` from 1 to `|repr| - 1`, in that order. */
  function Stitch(repr: seq<int>): (r: ContrSeq)
    ensures |r| == Max(|repr| - 1, 0)
  {
    if |repr| <= 1 then [] else Stitch(repr[..|repr| - 1]) + [(repr[|repr| - 1], repr[|repr| - 2])]
  }

  /** The stitching joins each representative to the one before it, one pair per later component. */
  lemma {:induction false} StitchPairs(repr: seq<int>)
    ensures forall i :: 0 <= i < |repr| - 1 ==> Stitch(repr)[i] == (repr[i + 1], repr[i])
  {
    if |repr| > 1 {
      StitchPairs(repr[..|repr| - 1]);
    }
  }

  /** The last loop of `cc_bab_with_lb`: one pair per representative after the first. */
  method StitchAll(res: ContrSeq, repr: seq<int>) returns (res': ContrSeq)
    ensures res' == res + Stitch(repr)
  {
    res' := res;
    var i := 1;
    while i < |repr|
      invariant 1 <= i
      invariant |repr| >= 1 ==> i <= |repr| && res' == res + Stitch(repr[..i])
      invariant |repr| == 0 ==> res' == res
    {
      assert repr[..i + 1][..i] == repr[..i];
      res' := res' + [(repr[i], repr[i - 1])];
      i := i + 1;
    }
    if |repr| >= 1 {
      assert repr[..i] == repr;
    }
  }

  /**
   * The marks and numbering of the search that collects one component:
   * `seen` marks the vertices of the earlier components (`done`) and of
   * `cc`, and `cc` is numbered in the order its vertices were reached.
   */
  ghost predicate GatherMarks(g: Shape, done: set<int>, seen: seq<bool>, cc: set<int>, m: seq<int>, mInv: seq<int>)
  {
    && |seen| == |g.adj| && |m| == |g.adj| && |mInv| == |g.adj|
    && (forall x :: 0 <= x < |seen| ==> (seen[x] <==> x in done || x in cc))
    && cc * done == {} && cc <= g.mask && |cc| <= |m|
    && Numbering(cc, mInv, m[..|cc|])
  }

  /** The stack holds active vertices, and every neighbour of a vertex of `cc` is seen or on the stack. */
  ghost predicate GatherStack(g: Shape, done: set<int>, q: seq<int>, cc: set<int>)
  {
    && (forall i :: 0 <= i < |q| ==> q[i] in g.mask)
    && (forall x, y :: x in cc && 0 <= x < |g.adj| && 0 <= x < |g.red| && y in g.adj[x] + g.red[x] ==>
          y in done || y in cc || y in q)
  }

  /**
   * Every closed set through `u` holds `cc` and the stack, and the
   * search from an already seen `u` finds nothing.
   */
  ghost predicate GatherReach(g: Shape, u: int, done: set<int>, q: seq<int>, cc: set<int>)
  {
    && (forall s :: Closed(g, s) && u in s ==> cc <= s && forall i :: 0 <= i < |q| ==> q[i] in s)
    && (u in done ==> cc == {} && (q == [] || q == [u]))
    && (u !in done ==> u in cc || (cc == {} && q == [u]))
  }

  /** The state of the search from `u` that collects one component. */
  ghost predicate Gathering(g: Shape, u: int, done: set<int>, seen: seq<bool>, q: seq<int>, cc: set<int>,
                            m: seq<int>, mInv: seq<int>)
  {
    GatherMarks(g, done, seen, cc, m, mInv) && GatherStack(g, done, q, cc) && GatherReach(g, u, done, q, cc)
  }

  /**
   * The search loop of `cc_bab_with_lb` from `u`: a vertex is marked when
   * popped, numbered `|cc|`, and all its black and red neighbours are
   * pushed. From an unseen `u` it collects exactly the component of `u`.
   */
  method Gather(g: Shape, u: int, seen: seq<bool>, m: seq<int>, mInv: seq<int>, ghost done: set<int>)
    returns (seen': seq<bool>, m': seq<int>, mInv': seq<int>, cc: set<int>)
    requires WellFormed(g) && u in g.mask && Closed(g, done)
    requires |seen| == |g.adj| && |m| == |g.adj| && |mInv| == |g.adj|
    requires forall x :: 0 <= x < |seen| ==> (seen[x] <==> x in done)
    ensures GatherMarks(g, done, seen', cc, m', mInv')
    ensures Closed(g, done + cc)
    ensures u in done ==> cc == {}
    ensures u !in done ==> u in cc && Component(g, cc)
  {
    seen', m', mInv', cc := seen, m, mInv, {};
    var q := [u];
    while q != []
      invariant Gathering(g, u, done, seen', q, cc, m', mInv')
      decreases |g.mask - (done + cc)|, |q|
    {
      seen', q, cc, m', mInv' := Pop(g, u, done, seen', q, cc, m', mInv');
    }
    GatherDone(g, u, done, cc);
  }

  /** With the stack empty, the vertices collected are closed, and from an unseen `u` they are its component. */
  lemma GatherDone(g: Shape, u: int, done: set<int>, cc: set<int>)
    requires WellFormed(g) && Closed(g, done) && cc * done == {} && cc <= g.mask
    requires GatherStack(g, done, [], cc) && GatherReach(g, u, done, [], cc)
    ensures Closed(g, done + cc) && (u !in done ==> u in cc && Component(g, cc))
  {
    forall x | x in cc
      ensures x !in done && g.adj[x] + g.red[x] <= done + cc
    {
      assert x in g.mask && 0 <= x < |g.adj| && 0 <= x < |g.red|;
      forall y | y in g.adj[x] + g.red[x]
        ensures y in done + cc
      {
        assert y in done || y in cc || y in [];
      }
      assert x !in cc * done;
    }
    ReachedClosed(g, done, cc);
    if u !in done {
      LeastClosedIsComponent(g, cc, u);
    }
  }

  /** One turn of the search loop: pop `v`; skip it if seen, otherwise mark and number it and push its neighbours. */
  method Pop(g: Shape, ghost u: int, ghost done: set<int>, seen: seq<bool>, q: seq<int>, cc: set<int>,
             m: seq<int>, mInv: seq<int>)
    returns (seen': seq<bool>, q': seq<int>, cc': set<int>, m': seq<int>, mInv': seq<int>)
    requires WellFormed(g) && Closed(g, done) && Gathering(g, u, done, seen, q, cc, m, mInv) && q != []
    ensures Gathering(g, u, done, seen', q', cc', m', mInv')
    ensures |g.mask - (done + cc')| < |g.mask - (done + cc)| ||
            (g.mask - (done + cc') == g.mask - (done + cc) && |q'| < |q|)
  {
    Top(g, u, done, seen, q, cc, m, mInv);
    var v := q[|q| - 1];
    q' := q[..|q| - 1];
    if seen[v] {
      seen', cc', m', mInv' := seen, cc, m, mInv;
      PopSeen(g, u, done, seen, q, cc, m, mInv);
      return;
    }
    seen' := seen[v := true];
    m' := m[|cc| := v];
    mInv' := mInv[v := |cc|];
    cc' := cc + {v};
    var q1 := PushAll(q', g.adj[v]);
    q' := PushAll(q1, g.red[v]);
    PopUnseen(g, u, done, seen, q, cc, m, mInv, v, q1, q');
  }

  /** The vertex on top of the stack is a vertex of `g`, and if unseen there is room to number it. */
  lemma Top(g: Shape, u: int, done: set<int>, seen: seq<bool>, q: seq<int>, cc: set<int>, m: seq<int>, mInv: seq<int>)
    requires WellFormed(g) && Gathering(g, u, done, seen, q, cc, m, mInv) && q != []
    ensures 0 <= q[|q| - 1] < |seen| && 0 <= q[|q| - 1] < |g.adj| && 0 <= q[|q| - 1] < |g.red|
    ensures !seen[q[|q| - 1]] ==> |cc| < |m|
  {
    assert q[|q| - 1] in g.mask;
    if !seen[q[|q| - 1]] {
      Unseen(g, done, seen, cc, m, mInv, q[|q| - 1]);
    }
  }

  /** Popping the unseen `v`, marking and numbering it and pushing its neighbours keeps the search state. */
  lemma PopUnseen(g: Shape, u: int, done: set<int>, seen: seq<bool>, q: seq<int>, cc: set<int>, m: seq<int>,
                  mInv: seq<int>, v: int, q1: seq<int>, q2: seq<int>)
    requires WellFormed(g) && Gathering(g, u, done, seen, q, cc, m, mInv) && q != [] && v == q[|q| - 1]
    requires 0 <= v < |seen| && !seen[v] && |cc| < |m| && 0 <= v < |g.adj| && 0 <= v < |g.red|
    requires |q1| >= |q| - 1 && q1[..|q| - 1] == q[..|q| - 1] && |q2| >= |q1| && q2[..|q1|] == q1
    requires forall i :: |q| - 1 <= i < |q1| ==> q1[i] in g.adj[v]
    requires forall y :: y in g.adj[v] ==> y in q1[|q| - 1..]
    requires forall i :: |q1| <= i < |q2| ==> q2[i] in g.red[v]
    requires forall y :: y in g.red[v] ==> y in q2[|q1|..]
    ensures Gathering(g, u, done, seen[v := true], q2, cc + {v}, m[|cc| := v], mInv[v := |cc|])
    ensures |g.mask - (done + (cc + {v}))| < |g.mask - (done + cc)|
  {
    assert v in g.mask;
    Unseen(g, done, seen, cc, m, mInv, v);
    PopMarks(g, done, seen, cc, m, mInv, v);
    PopStack(g, done, q, cc, v, q1, q2);
    PopReach(g, u, done, q, cc, v, q1, q2);
  }

  /** An unseen vertex on the stack is active, outside `done` and `cc`, and leaves room to number it. */
  lemma Unseen(g: Shape, done: set<int>, seen: seq<bool>, cc: set<int>, m: seq<int>, mInv: seq<int>, v: int)
    requires WellFormed(g) && GatherMarks(g, done, seen, cc, m, mInv) && v in g.mask && !seen[v]
    ensures 0 <= v < |g.adj| && 0 <= v < |g.red| && v !in done && v !in cc && |cc| < |m|
    ensures |g.mask - (done + (cc + {v}))| < |g.mask - (done + cc)|
  {
    SubsetBelow(cc + {v}, |g.adj|);
    assert g.mask - (done + (cc + {v})) == (g.mask - (done + cc)) - {v};
  }

  /** Popping a vertex already seen only shortens the stack. */
  lemma PopSeen(g: Shape, u: int, done: set<int>, seen: seq<bool>, q: seq<int>, cc: set<int>, m: seq<int>, mInv: seq<int>)
    requires Gathering(g, u, done, seen, q, cc, m, mInv) && q != []
    requires 0 <= q[|q| - 1] < |seen| && seen[q[|q| - 1]]
    ensures Gathering(g, u, done, seen, q[..|q| - 1], cc, m, mInv)
  {
    var v, q' := q[|q| - 1], q[..|q| - 1];
    forall x, y | x in cc && 0 <= x < |g.adj| && 0 <= x < |g.red| && y in g.adj[x] + g.red[x]
      ensures y in done || y in cc || y in q'
    {
      if y in q && y !in done && y !in cc {
        var i :| 0 <= i < |q| && q[i] == y;
        assert i < |q'| && q'[i] == y;
      }
    }
  }

  /** Popping the unseen `v` marks it and numbers it `|cc|`. */
  lemma PopMarks(g: Shape, done: set<int>, seen: seq<bool>, cc: set<int>, m: seq<int>, mInv: seq<int>, v: int)
    requires GatherMarks(g, done, seen, cc, m, mInv) && v in g.mask && 0 <= v < |m| && v !in done && v !in cc && |cc| < |m|
    ensures GatherMarks(g, done, seen[v := true], cc + {v}, m[|cc| := v], mInv[v := |cc|])
  {
    NumberOne(cc, mInv, m[..|cc|], v);
    assert m[|cc| := v][..|cc| + 1] == m[..|cc|] + [v];
  }

  /** After `v` is popped and its neighbours pushed, the stack still covers the neighbours of `cc + {v}`. */
  lemma PopStack(g: Shape, done: set<int>, q: seq<int>, cc: set<int>, v: int, q1: seq<int>, q2: seq<int>)
    requires WellFormed(g) && GatherStack(g, done, q, cc) && q != [] && v == q[|q| - 1]
    requires 0 <= v < |g.adj| && 0 <= v < |g.red|
    requires |q1| >= |q| - 1 && q1[..|q| - 1] == q[..|q| - 1] && |q2| >= |q1| && q2[..|q1|] == q1
    requires forall i :: |q| - 1 <= i < |q1| ==> q1[i] in g.adj[v]
    requires forall y :: y in g.adj[v] ==> y in q1[|q| - 1..]
    requires forall i :: |q1| <= i < |q2| ==> q2[i] in g.red[v]
    requires forall y :: y in g.red[v] ==> y in q2[|q1|..]
    ensures GatherStack(g, done, q2, cc + {v})
  {
    PushedActive(g, q, v, q1, q2);
    forall x, y | x in cc + {v} && 0 <= x < |g.adj| && 0 <= x < |g.red| && y in g.adj[x] + g.red[x]
      ensures y in done || y in cc + {v} || y in q2
    {
      if x == v {
        if y in g.adj[v] {
          Suffix(q1, |q| - 1, y);
          assert q2[..|q1|] == q1;
          Prefix(q2, |q1|, y);
        } else {
          Suffix(q2, |q1|, y);
        }
      } else if y in q && y != v {
        var i :| 0 <= i < |q| && q[i] == y;
        assert i < |q| - 1 && q2[i] == q1[i] == y;
      }
    }
  }

  /** The stack after the pushes holds active vertices only. */
  lemma PushedActive(g: Shape, q: seq<int>, v: int, q1: seq<int>, q2: seq<int>)
    requires WellFormed(g) && q != [] && (forall i :: 0 <= i < |q| ==> q[i] in g.mask) && v == q[|q| - 1]
    requires 0 <= v < |g.adj| && 0 <= v < |g.red|
    requires |q1| >= |q| - 1 && q1[..|q| - 1] == q[..|q| - 1] && |q2| >= |q1| && q2[..|q1|] == q1
    requires forall i :: |q| - 1 <= i < |q1| ==> q1[i] in g.adj[v]
    requires forall i :: |q1| <= i < |q2| ==> q2[i] in g.red[v]
    ensures forall i :: 0 <= i < |q2| ==> q2[i] in g.mask
  {
    assert v in g.mask;
    forall i | 0 <= i < |q2|
      ensures q2[i] in g.mask
    {
      if i < |q| - 1 {
        assert q2[i] == q1[i] == q[i];
      } else if i < |q1| {
        assert q2[i] == q1[i];
      }
    }
  }

  /** A member of the suffix `s[k..]` is a member of `s`. */
  lemma Suffix(s: seq<int>, k: int, y: int)
    requires 0 <= k <= |s| && y in s[k..]
    ensures y in s
  {
    var j :| 0 <= j < |s[k..]| && s[k..][j] == y;
    assert s[k + j] == y;
  }

  /** A member of `s` is a member of any sequence that starts with `s`. */
  lemma Prefix(t: seq<int>, k: int, y: int)
    requires 0 <= k <= |t| && y in t[..k]
    ensures y in t
  {
    var j :| 0 <= j < k && t[..k][j] == y;
    assert t[j] == y;
  }

  /** Every closed set through `u` holds the popped `v` and, being closed, the neighbours pushed. */
  lemma PopReach(g: Shape, u: int, done: set<int>, q: seq<int>, cc: set<int>, v: int, q1: seq<int>, q2: seq<int>)
    requires GatherReach(g, u, done, q, cc) && q != [] && v == q[|q| - 1] && v !in done && v !in cc
    requires 0 <= v < |g.adj| && 0 <= v < |g.red|
    requires |q1| >= |q| - 1 && q1[..|q| - 1] == q[..|q| - 1] && |q2| >= |q1| && q2[..|q1|] == q1
    requires forall i :: |q| - 1 <= i < |q1| ==> q1[i] in g.adj[v]
    requires forall i :: |q1| <= i < |q2| ==> q2[i] in g.red[v]
    ensures GatherReach(g, u, done, q2, cc + {v})
  {
    forall s | Closed(g, s) && u in s
      ensures cc + {v} <= s && forall i :: 0 <= i < |q2| ==> q2[i] in s
    {
      assert v in s;
      forall i | 0 <= i < |q2|
        ensures q2[i] in s
      {
        if i < |q| - 1 {
          assert q2[i] == q1[i] == q[i];
        } else if i < |q1| {
          assert q2[i] == q1[i];
        }
      }
    }
  }

  /** The loop `for (int w: nb) q.push_back(w)`: every member of `nb` is pushed, in some order. */
  method PushAll(q: seq<int>, nb: set<int>) returns (q': seq<int>)
    ensures |q'| >= |q| && q'[..|q|] == q
    ensures forall i :: |q| <= i < |q'| ==> q'[i] in nb
    ensures forall y :: y in nb ==> y in q'[|q|..]
  {
    q' := q;
    var todo := nb;
    while todo != {}
      invariant todo <= nb && |q'| >= |q| && q'[..|q|] == q
      invariant forall i :: |q| <= i < |q'| ==> q'[i] in nb
      invariant forall y :: y in nb - todo ==> y in q'[|q|..]
      decreases |todo|
    {
      Nonempty(todo);
      var w :| w in todo;
      assert q'[|q|..] + [w] == (q' + [w])[|q|..];
      q' := q' + [w];
      todo := todo - {w};
    }
  }

  /**
   * What `cc_bab_with_lb` did for one component `cc`, numbered by `m`:
   * the lower bound before and after, the dense graph handed to the
   * heuristic, its bound `ub`, the sampled bounds `lbs`, the moves of the
   * second tree kernel `kernel2` and the search result `search` (both in
   * the component's numbering), the search score, the first tree-kernel
   * moves and the sequence kept, both renamed to vertices of the graph,
   * and the representative.
   */
  datatype Solved = Solved(cc: set<int>, m: seq<int>, lbIn: int, ccLb: int, lbOut: int, shape: Shape, ub: int,
                           lbs: seq<int>, kernel2: ContrSeq, search: Bab.Score,
                           score: int, kernel: ContrSeq, sol: ContrSeq, repr: int)

  /**
   * The promises about one component: it is a component of `g`; the
   * sampled bound is the running maximum of the samples from the bound on
   * entry, and the bound grows to it and to `min(score, ub)`; each tree
   * kernel runs only when the bound it is guarded by is at least 2; the
   * score is the search's; the heuristic sequence is kept unless the
   * search beat `ub`, and then the second kernel's moves followed by the
   * search's sequence are kept; every move stays inside the component,
   * and the representative is its only vertex or the first vertex of its
   * last move.
   */
  ghost predicate SolvedWell(g: Shape, heur: Shape -> (int, ContrSeq), p: Solved)
  {
    && Component(g, p.cc) && |p.m| == |p.cc| && (forall i :: 0 <= i < |p.m| ==> p.m[i] in p.cc)
    && p.ccLb == LowerBound.Best(p.lbIn, p.lbs) && p.ccLb >= p.lbIn
    && p.lbOut == Max(p.ccLb, Min(p.score, p.ub)) && p.score <= p.ub
    && (p.lbIn < 2 ==> p.kernel == []) && (p.ccLb < 2 ==> p.kernel2 == []) && p.score == p.search.0
    && p.ub == heur(p.shape).0 && |p.shape.adj| == |p.cc|
    && (p.score >= p.ub ==> PairsBelow(heur(p.shape).1, |p.m|) && p.sol == Mapped(heur(p.shape).1, p.m))
    && (p.score < p.ub ==> PairsBelow(p.kernel2 + p.search.1, |p.m|) && p.sol == Mapped(p.kernel2 + p.search.1, p.m))
    && PairsIn(p.kernel + p.sol, p.cc) && p.repr in p.cc
    && (|p.cc| == 1 ==> p.cc == {p.repr})
    && (|p.cc| >= 2 ==> p.kernel + p.sol != [] && p.repr == Last(p.kernel + p.sol).0)
  }

  /** What `Heuristic` gives on one well-formed graph, with its active vertices numbered below `|s.adj|`. */
  lemma HeurFacts(heur: Shape -> (int, ContrSeq), s: Shape)
    requires Heuristic(heur) && WellFormed(s)
    ensures PairsBelow(heur(s).1, |s.adj|) && (|s.mask| >= 2 ==> heur(s).1 != [])
  {
    assert PairsIn(heur(s).1, s.mask);
  }

  /** The sampling on a graph whose active set is `m`. */
  function SampleOn(sample: (set<int>, nat, int) -> set<int>, m: set<int>): (f: (nat, int) -> set<int>)
    ensures forall r: nat, k :: f(r, k) == sample(m, r, k)
  {
    (r: nat, k: int) => sample(m, r, k)
  }

  /** `Samples` makes the sampling on a nonempty active set a valid sampler for the lower bound. */
  lemma SamplerOn(sample: (set<int>, nat, int) -> set<int>, m: set<int>)
    requires Samples(sample) && m != {}
    ensures LowerBound.Sampler(SampleOn(sample, m), m)
  {
  }

  /**
   * `dense_subgraph(cc, m_inv)` followed by `kernelize_if_lb_gt2`: the
   * dense copy of the component and, when `lb >= 2`, its tree-kernel
   * moves, logged renamed to vertices of `g`.
   */
  method DenseKernelized(g: Graph, cc: set<int>, m: seq<int>, mInv: seq<int>, lb: int, res: ContrSeq)
    returns (h: BitGraphs.BitGraph, kt: ContrSeq, res': ContrSeq)
    requires g.Valid() && cc != {} && cc <= g.mask && |cc| <= LongBitsets.MAX_SIZE
    requires |cc| <= |m| && Numbering(cc, mInv, m[..|cc|])
    ensures fresh(h) && h.Valid() && h.n == |cc| && h.mask != {}
    ensures |kt| == |cc| - |h.mask| && PairsBelow(kt, |cc|) && (lb < 2 ==> kt == [])
    ensures res' == res + Mapped(kt, m[..|cc|])
  {
    h := g.DenseSubgraph(cc, mInv, m[..|cc|]);
    DenseMask(g, h, cc, mInv, m[..|cc|]);
    kt := [];
    res' := res;
    if lb >= 2 {
      kt := BitTrees.KernelizeTwwGt2(h);
      res' := AppendMapped(res', kt, m, |cc|);
    }
  }

  /**
   * A component of two or more vertices gets a move: from the tree kernel
   * when it left one vertex, else from the heuristic or from the search
   * that beat it.
   */
  lemma SomeMove(cc: set<int>, kt: ContrSeq, sol: ContrSeq, shape: Shape, heur: Shape -> (int, ContrSeq),
                 score: int, ub: int)
    requires Heuristic(heur) && WellFormed(shape) && shape.mask != {}
    requires |kt| == |cc| - |shape.mask|
    requires score >= ub ==> sol == heur(shape).1
    requires score < ub && |shape.mask| >= 2 ==> sol != []
    ensures |cc| >= 2 ==> kt + sol != []
  {
    if |cc| >= 2 && |shape.mask| >= 2 && score >= ub {
      assert heur(shape).1 != [];
    }
  }

  /** The facts gathered by `SolveComponent` make its record well solved. */
  lemma Assemble(g: Shape, heur: Shape -> (int, ContrSeq), p: Solved, mInv: seq<int>, kt: ContrSeq, sol: ContrSeq)
    requires Heuristic(heur) && Component(g, p.cc) && Numbering(p.cc, mInv, p.m)
    requires p.ccLb == LowerBound.Best(p.lbIn, p.lbs) && p.ccLb >= p.lbIn
    requires p.lbOut == Max(p.ccLb, Min(p.score, p.ub)) && p.score <= p.ub
    requires p.lbIn < 2 ==> kt == []
    requires p.ccLb < 2 ==> p.kernel2 == []
    requires p.score == p.search.0 && PairsBelow(p.kernel2 + p.search.1, |p.m|)
    requires p.score < p.ub ==> sol == p.kernel2 + p.search.1
    requires p.ub == heur(p.shape).0 && |p.shape.adj| == |p.cc| && WellFormed(p.shape)
    requires PairsBelow(kt, |p.m|) && PairsBelow(sol, |p.m|) && (p.score >= p.ub ==> sol == heur(p.shape).1)
    requires p.kernel == Mapped(kt, p.m) && p.sol == Mapped(sol, p.m)
    requires p.repr in p.cc && (|p.cc| == 1 ==> p.cc == {p.repr})
    requires |p.cc| >= 2 ==> p.kernel + p.sol != [] && p.repr == Last(p.kernel + p.sol).0
    ensures SolvedWell(g, heur, p)
  {
  }

  /**
   * Log the moves kept for a component `cc` renamed through `m`, after
   * its kernel moves `kt`, and pick the representative: the only vertex,
   * or the first vertex of the last move logged.
   */
  method LogMoves(ghost before: ContrSeq, res: ContrSeq, kt: ContrSeq, sol: ContrSeq, m: seq<int>, cc: set<int>)
    returns (res': ContrSeq, repr: int)
    requires cc != {} && |cc| <= |m| && forall i :: 0 <= i < |cc| ==> m[i] in cc
    requires PairsBelow(kt, |cc|) && PairsBelow(sol, |cc|) && res == before + Mapped(kt, m[..|cc|])
    requires |cc| >= 2 ==> kt + sol != []
    ensures res' == before + Mapped(kt, m[..|cc|]) + Mapped(sol, m[..|cc|])
    ensures PairsIn(Mapped(kt, m[..|cc|]) + Mapped(sol, m[..|cc|]), cc) && repr in cc
    ensures |cc| == 1 ==> cc == {repr}
    ensures |cc| >= 2 ==> Mapped(kt, m[..|cc|]) + Mapped(sol, m[..|cc|]) != []
    ensures |cc| >= 2 ==> repr == Last(Mapped(kt, m[..|cc|]) + Mapped(sol, m[..|cc|])).0
  {
    ghost var mm := m[..|cc|];
    res' := AppendMapped(res, sol, m, |cc|);
    MappedIn(kt, mm, cc);
    MappedIn(sol, mm, cc);
    ghost var kernel, moves := Mapped(kt, mm), Mapped(sol, mm);
    if |cc| == 1 {
      Nonempty(cc);
      var y :| y in cc;
      assert cc == {y} by {
        assert |cc - {y}| == 0;
      }
      repr := y;
    } else {
      LastMove(before, kernel, moves);
      repr := res'[|res'| - 1].0;
      assert Last(kernel + moves) in kernel + moves;
    }
  }

  /** The last move of a nonempty sequence. */
  function Last(s: ContrSeq): (r: (int, int))
    requires s != []
    ensures r in s && r == s[|s| - 1]
  {
    s[|s| - 1]
  }

  /** The last move logged is the last of the moves appended. */
  lemma LastMove(res: ContrSeq, a: ContrSeq, b: ContrSeq)
    requires a + b != []
    ensures Last(res + a + b) == Last(a + b)
  {
    if b == [] {
      assert res + a + b == res + a;
    }
  }

  /** The dense copy of a component is numbered 0..|cc|-1, all active. */
  lemma DenseMask(g: Graph, h: BitGraphs.BitGraph, cc: set<int>, mInv: seq<int>, m: seq<int>)
    requires g.Valid() && cc <= g.mask && Numbering(cc, mInv, m) && g.DenseCopy(h, cc, mInv, m)
    ensures h.Valid() && h.n == |cc| && h.mask == Below(|cc|)
  {
  }

  /**
   * The search on one component: the tree kernel again when `lb >= 2`
   * (its moves `kernel2`), then `mem_bab_heur_with_ub_lb(h, ub, lb)`
   * (its result `search`, with `mid` the width it starts from). The
   * score is the search's, and the sequence is the kernel moves followed
   * by the search's sequence. When the search beats `ub` on two or more
   * vertices, the sequence has a move.
   */
  method KernelAndSearch(h: BitGraphs.BitGraph, ub: int, lb: int)
    returns (score: int, sol: ContrSeq, ghost kernel2: ContrSeq, ghost search: Bab.Score, ghost mid: int)
    requires h.Valid() && h.mask != {}
    modifies h
    ensures lb < 2 ==> kernel2 == []
    ensures PairsBelow(kernel2, h.n) && PairsBelow(search.1, h.n)
    ensures score == search.0 && sol == kernel2 + search.1
    ensures score <= ub && PairsBelow(sol, h.n)
    ensures old(h.fullTww) <= mid && (mid >= ub ==> search == (ub, []))
    ensures score < ub && old(|h.mask|) >= 2 ==> sol != []
  {
    sol := [];
    if lb >= 2 {
      sol := BitTrees.KernelizeTwwGt2(h);
    }
    kernel2, mid := sol, h.fullTww;
    var hRes, found, kernel, opts := Bab.MemBabHeurWithUbLb(h, ub, lb);
    search := hRes;
    score := hRes.0;
    sol := sol + hRes.1;
  }

  /**
   * The sampled lower bound on the dense copy `h` from `lb` (the samples
   * `lbs`), then the search with the heuristic's value `ub` as the score
   * to beat, after the tree kernel when the raised bound is at least 2;
   * the heuristic's sequence `heurSol` is kept unless the search beat
   * `ub`, and then the kernel moves and the search's sequence are kept.
   */
  method BoundAndSearch(h: BitGraphs.BitGraph, ub: int, heurSol: ContrSeq, lb: int, rounds: nat,
                        sample: (set<int>, nat, int) -> set<int>)
    returns (ccLb: int, score: int, sol: ContrSeq, ghost lbs: seq<int>, ghost kernel2: ContrSeq, ghost search: Bab.Score)
    requires h.Valid() && h.mask != {} && Samples(sample)
    modifies h
    ensures ccLb >= lb && score <= ub
    ensures ccLb == LowerBound.Best(lb, lbs) && |lbs| <= rounds
    ensures |lbs| < rounds ==> ccLb >= ub
    ensures forall j :: 0 < j < |lbs| ==> LowerBound.Best(lb, lbs[..j]) < ub
    ensures ccLb < 2 ==> kernel2 == []
    ensures score == search.0 && PairsBelow(kernel2 + search.1, h.n)
    ensures score >= ub ==> sol == heurSol
    ensures score < ub ==> sol == kernel2 + search.1 && (old(|h.mask|) >= 2 ==> sol != [])
  {
    var hm := h.mask;
    SamplerOn(sample, hm);
    ccLb, lbs := LowerBound.TimedIterSubgraphLbEarlyExit(h, ub, lb, LB_K, rounds, SampleOn(sample, hm));
    var sol2;
    ghost var mid;
    score, sol2, kernel2, search, mid := KernelAndSearch(h, ub, Max(lb, ccLb));
    sol := heurSol;
    if score < ub {
      sol := sol2;
    }
  }

  /**
   * The body of `cc_bab_with_lb`'s loop for a component `cc` of at
   * least one vertex: build its dense graph, run the tree kernel when
   * `lb >= 2`, ask the heuristic, raise `lb` by the sampled lower bound
   * (with a time share proportional to the component), search with the
   * heuristic's value as the score to beat, keep the search's sequence
   * only if it beat that value, raise `lb` by the value reached, and log
   * the moves renamed to vertices of `g`.
   */
  method SolveComponent(g: Graph, cc: set<int>, m: seq<int>, mInv: seq<int>, lb: int, res: ContrSeq,
                        heur: Shape -> (int, ContrSeq), clock: int -> nat, sample: (set<int>, nat, int) -> set<int>)
    returns (res': ContrSeq, lb': int, repr: int, ghost p: Solved)
    requires g.Valid() && Component(g.State(), cc) && |cc| <= LongBitsets.MAX_SIZE
    requires |cc| <= |m| && Numbering(cc, mInv, m[..|cc|])
    requires Heuristic(heur) && Samples(sample)
    ensures SolvedWell(g.State(), heur, p) && p.cc == cc && p.m == m[..|cc|]
    ensures p.lbIn == lb && lb' == p.lbOut && repr == p.repr
    ensures res' == res + p.kernel + p.sol
  {
    ghost var mm := m[..|cc|];
    var h, kt;
    h, kt, res' := DenseKernelized(g, cc, m, mInv, lb, res);
    ghost var shape := h.State();
    HeurFacts(heur, shape);
    var ubSol := heur(h.State());
    var ub, sol := ubSol.0, ubSol.1;
    Nonempty(cc);
    ghost var x :| x in cc;
    assert x in g.mask;
    var time := (h.ActualN() * LB_TIME_S) / g.ActualN();
    var ccLb, hScore;
    ghost var lbs, kernel2, search;
    ccLb, hScore, sol, lbs, kernel2, search := BoundAndSearch(h, ub, sol, lb, clock(time), sample);
    lb' := Max(Max(lb, ccLb), Min(hScore, ub));
    SomeMove(cc, kt, sol, shape, heur, hScore, ub);
    ghost var before := res;
    res', repr := LogMoves(before, res', kt, sol, m, cc);
    p := Solved(cc, mm, lb, ccLb, lb', shape, ub, lbs, kernel2, search, hScore, Mapped(kt, mm), Mapped(sol, mm), repr);
    Assemble(g.State(), heur, p, mInv, kt, sol);
  }
  /** The vertices of the components solved so far. */
  function Covered(parts: seq<Solved>): (r: set<int>)
    ensures forall i :: 0 <= i < |parts| ==> parts[i].cc <= r
  {
    if parts == [] then {} else Covered(parts[..|parts| - 1]) + parts[|parts| - 1].cc
  }

  /** The moves logged for the components solved so far, in order: each one's kernel moves, then its sequence. */
  function Moves(parts: seq<Solved>): ContrSeq
  {
    if parts == [] then [] else Moves(parts[..|parts| - 1]) + parts[|parts| - 1].kernel + parts[|parts| - 1].sol
  }

  /** The representatives of the components solved so far, in order. */
  function Reprs(parts: seq<Solved>): (r: seq<int>)
    ensures |r| == |parts| && forall i :: 0 <= i < |parts| ==> r[i] == parts[i].repr
  {
    if parts == [] then [] else Reprs(parts[..|parts| - 1]) + [parts[|parts| - 1].repr]
  }

  /** The lower bound after the components solved so far, starting from `lb0`. */
  function LbAfter(lb0: int, parts: seq<Solved>): int
  {
    if parts == [] then lb0 else parts[|parts| - 1].lbOut
  }

  /** Each component was solved well. */
  ghost predicate AllSolved(g: Shape, heur: Shape -> (int, ContrSeq), parts: seq<Solved>)
  {
    forall i :: 0 <= i < |parts| ==> SolvedWell(g, heur, parts[i])
  }

  /** Each component was solved from the bound the previous one left (`lb0`, the graph's `full_width()`, for the first). */
  ghost predicate LbChain(lb0: int, parts: seq<Solved>)
  {
    forall i :: 0 <= i < |parts| ==> parts[i].lbIn == LbAfter(lb0, parts[..i])
  }

  /** No two components solved share a vertex. */
  ghost predicate Disjoint(parts: seq<Solved>)
  {
    forall i, j :: 0 <= i < j < |parts| ==> parts[i].cc * parts[j].cc == {}
  }

  /** The promises about the components solved: well solved, chained by the bound, disjoint. */
  ghost predicate Chained(g: Shape, heur: Shape -> (int, ContrSeq), lb0: int, parts: seq<Solved>)
  {
    AllSolved(g, heur, parts) && LbChain(lb0, parts) && Disjoint(parts)
  }

  /** Solving one more component keeps every component well solved. */
  lemma SolvedMore(g: Shape, heur: Shape -> (int, ContrSeq), parts: seq<Solved>, p: Solved)
    requires AllSolved(g, heur, parts) && SolvedWell(g, heur, p)
    ensures AllSolved(g, heur, parts + [p])
  {
    forall i | 0 <= i < |parts + [p]|
      ensures SolvedWell(g, heur, (parts + [p])[i])
    {
      if i < |parts| {
        assert (parts + [p])[i] == parts[i];
      }
    }
  }

  /** Solving one more component from the bound the others left keeps the chain. */
  lemma {:induction false} LbChainMore(lb0: int, parts: seq<Solved>, p: Solved)
    requires LbChain(lb0, parts) && p.lbIn == LbAfter(lb0, parts)
    ensures LbChain(lb0, parts + [p])
  {
    var parts' := parts + [p];
    assert parts'[..|parts|] == parts;
    forall i | 0 <= i < |parts'|
      ensures parts'[i].lbIn == LbAfter(lb0, parts'[..i])
    {
      if i < |parts| {
        assert parts'[..i] == parts[..i];
      }
    }
  }

  /** One more component, disjoint from the vertices covered, keeps the components disjoint. */
  lemma DisjointMore(parts: seq<Solved>, p: Solved)
    requires Disjoint(parts) && p.cc * Covered(parts) == {}
    ensures Disjoint(parts + [p])
  {
    var parts' := parts + [p];
    forall i, j | 0 <= i < j < |parts'|
      ensures parts'[i].cc * parts'[j].cc == {}
    {
      if j == |parts| {
        assert parts[i].cc <= Covered(parts);
      } else {
        assert parts'[i] == parts[i] && parts'[j] == parts[j];
      }
    }
  }

  /** The facts of one more component solved keep `Chained`. */
  lemma ChainedMore(g: Shape, heur: Shape -> (int, ContrSeq), lb0: int, parts: seq<Solved>, p: Solved)
    requires Chained(g, heur, lb0, parts) && SolvedWell(g, heur, p)
    requires p.lbIn == LbAfter(lb0, parts) && p.cc * Covered(parts) == {}
    ensures Chained(g, heur, lb0, parts + [p])
  {
    SolvedMore(g, heur, parts, p);
    LbChainMore(lb0, parts, p);
    DisjointMore(parts, p);
  }

  /**
   * The state of `cc_bab_with_lb` between two start vertices: `seen` marks
   * the vertices of the components solved, which form a closed set; the
   * log holds `sq` and their moves; `repr` their representatives; `lb` the
   * bound the last one left.
   */
  ghost predicate Progress(g: Shape, heur: Shape -> (int, ContrSeq), lb0: int, sq: ContrSeq, seen: seq<bool>,
                           m: seq<int>, mInv: seq<int>, res: ContrSeq, lb: int, repr: seq<int>, parts: seq<Solved>)
  {
    && Covered(parts) <= g.mask && Closed(g, Covered(parts))
    && |seen| == |g.adj| && |m| == |g.adj| && |mInv| == |g.adj|
    && (forall x :: 0 <= x < |seen| ==> (seen[x] <==> x in Covered(parts)))
    && res == sq + Moves(parts) && repr == Reprs(parts)
    && Chained(g, heur, lb0, parts) && lb == LbAfter(lb0, parts)
  }

  /** Solving one more component, disjoint from those solved, keeps `Progress`. */
  lemma ProgressMore(g: Shape, heur: Shape -> (int, ContrSeq), lb0: int, sq: ContrSeq, seen: seq<bool>,
                     m: seq<int>, mInv: seq<int>, res: ContrSeq, lb: int, repr: seq<int>, parts: seq<Solved>,
                     p: Solved, seen': seq<bool>, m': seq<int>, mInv': seq<int>, res': ContrSeq)
    requires Progress(g, heur, lb0, sq, seen, m, mInv, res, lb, repr, parts)
    requires SolvedWell(g, heur, p) && p.lbIn == lb && p.cc * Covered(parts) == {}
    requires Closed(g, Covered(parts) + p.cc)
    requires |seen'| == |g.adj| && |m'| == |g.adj| && |mInv'| == |g.adj|
    requires forall x :: 0 <= x < |seen'| ==> (seen'[x] <==> x in Covered(parts) || x in p.cc)
    requires res' == res + p.kernel + p.sol
    ensures Progress(g, heur, lb0, sq, seen', m', mInv', res', p.lbOut, repr + [p.repr], parts + [p])
    ensures Covered(parts + [p]) == Covered(parts) + p.cc
  {
    ChainedMore(g, heur, lb0, parts, p);
    LogMore(sq, res, res', repr, parts, p);
    CoverMore(parts, p);
  }

  /** The log and the representatives after one more component. */
  lemma LogMore(sq: ContrSeq, res: ContrSeq, res': ContrSeq, repr: seq<int>, parts: seq<Solved>, p: Solved)
    requires res == sq + Moves(parts) && repr == Reprs(parts) && res' == res + p.kernel + p.sol
    ensures res' == sq + Moves(parts + [p]) && repr + [p.repr] == Reprs(parts + [p])
  {
    var parts' := parts + [p];
    assert parts'[..|parts|] == parts;
    assert Moves(parts') == Moves(parts) + p.kernel + p.sol;
    Append3(sq, Moves(parts), p.kernel, p.sol);
  }

  /** The vertices covered after one more component. */
  lemma CoverMore(parts: seq<Solved>, p: Solved)
    ensures Covered(parts + [p]) == Covered(parts) + p.cc
  {
    assert (parts + [p])[..|parts|] == parts;
  }

  /** Appending three logs in turn is appending their concatenation. */
  lemma Append3(a: ContrSeq, b: ContrSeq, c: ContrSeq, d: ContrSeq)
    ensures a + b + c + d == a + (b + c + d)
  {
    assert a + b + c == a + (b + c);
    assert a + (b + c) + d == a + (b + c + d);
  }

  /**
   * One turn of `cc_bab_with_lb`'s loop: collect the component of `u`
   * and, when `u` was not seen, solve it and record its representative.
   */
  method SolveFrom(g: Graph, heur: Shape -> (int, ContrSeq), clock: int -> nat, sample: (set<int>, nat, int) -> set<int>,
                   u: int, seen: seq<bool>, m: seq<int>, mInv: seq<int>, res: ContrSeq, lb: int, repr: seq<int>,
                   ghost parts: seq<Solved>)
    returns (seen': seq<bool>, m': seq<int>, mInv': seq<int>, res': ContrSeq, lb': int, repr': seq<int>,
             ghost parts': seq<Solved>)
    requires g.Valid() && Heuristic(heur) && Samples(sample) && u in g.mask
    requires forall c :: Component(g.State(), c) ==> |c| <= LongBitsets.MAX_SIZE
    requires Progress(g.State(), heur, g.fullTww, g.sq, seen, m, mInv, res, lb, repr, parts)
    ensures Progress(g.State(), heur, g.fullTww, g.sq, seen', m', mInv', res', lb', repr', parts')
    ensures Covered(parts) <= Covered(parts') && u in Covered(parts')
  {
    var gs := g.State();
    ghost var done := Covered(parts);
    var cc;
    seen', m', mInv', cc := Gather(gs, u, seen, m, mInv, done);
    res', lb', repr', parts' := res, lb, repr, parts;
    if |cc| > 0 {
      var r;
      ghost var p;
      res', lb', r, p := SolveComponent(g, cc, m', mInv', lb, res, heur, clock, sample);
      ProgressMore(gs, heur, g.fullTww, g.sq, seen, m, mInv, res, lb, repr, parts, p, seen', m', mInv', res');
      parts' := parts + [p];
      repr' := repr + [r];
    } else {
      assert done + cc == done;
    }
  }

  /**
   * `cc_bab_with_lb(g)`: start from the log of `g` and its width as the
   * lower bound; take the active vertices in turn, and from each one not
   * yet seen collect its component and solve it; finally join each
   * representative to the previous one. The result is the log of `g`,
   * then the moves of each component in the order solved, then the
   * joining moves; the components solved are exactly the components of
   * `g`, each solved from the bound the previous one left.
   */
  method CcBabWithLb(g: Graph, heur: Shape -> (int, ContrSeq), clock: int -> nat, sample: (set<int>, nat, int) -> set<int>)
    returns (res: ContrSeq, ghost parts: seq<Solved>)
    requires g.Valid() && Heuristic(heur) && Samples(sample)
    requires forall c :: Component(g.State(), c) ==> |c| <= LongBitsets.MAX_SIZE
    ensures res == g.sq + Moves(parts) + Stitch(Reprs(parts))
    ensures Covered(parts) == g.mask && Chained(g.State(), heur, g.fullTww, parts)
  {
    res := g.Sol();
    var seen := seq(g.n, _ => false);
    var m := seq(g.n, _ => 0);
    var mInv := seq(g.n, _ => 0);
    var lb := g.FullWidth();
    var repr: seq<int> := [];
    parts := [];
    var todo := g.mask;
    ghost var s := g.State();
    while todo != {}
      invariant todo <= s.mask && s.mask - todo <= Covered(parts)
      invariant Progress(s, heur, g.fullTww, g.sq, seen, m, mInv, res, lb, repr, parts)
      decreases |todo|
    {
      Nonempty(todo);
      var u :| u in todo;
      todo := todo - {u};
      seen, m, mInv, res, lb, repr, parts := SolveFrom(g, heur, clock, sample, u, seen, m, mInv, res, lb, repr, parts);
    }
    assert s.mask <= Covered(parts) by {
      assert s.mask - todo == s.mask;
    }
    ProgressDone(s, heur, g.fullTww, g.sq, seen, m, mInv, res, lb, repr, parts);
    res := StitchAll(res, repr);
  }

  /** Once every active vertex is covered, the log, the representatives and the components are final. */
  lemma ProgressDone(g: Shape, heur: Shape -> (int, ContrSeq), lb0: int, sq: ContrSeq, seen: seq<bool>,
                     m: seq<int>, mInv: seq<int>, res: ContrSeq, lb: int, repr: seq<int>, parts: seq<Solved>)
    requires Progress(g, heur, lb0, sq, seen, m, mInv, res, lb, repr, parts) && g.mask <= Covered(parts)
    ensures res == sq + Moves(parts) && repr == Reprs(parts)
    ensures Covered(parts) == g.mask && Chained(g, heur, lb0, parts)
  {
  }
  /** Every vertex covered lies in one of the components solved. */
  lemma {:induction false} CoveredIn(parts: seq<Solved>, x: int)
    requires x in Covered(parts)
    ensures exists i :: 0 <= i < |parts| && x in parts[i].cc
  {
    var init := parts[..|parts| - 1];
    if x !in parts[|parts| - 1].cc {
      CoveredIn(init, x);
      var i :| 0 <= i < |init| && x in init[i].cc;
      assert parts[i] == init[i];
    }
  }

  /**
   * The components solved by `cc_bab_with_lb` are exactly the connected
   * components of the graph: each one solved is a component, and each
   * component is solved once.
   */
  lemma EveryComponentSolved(g: Shape, heur: Shape -> (int, ContrSeq), lb0: int, parts: seq<Solved>, c: set<int>)
    requires Covered(parts) == g.mask && Chained(g, heur, lb0, parts)
    ensures Component(g, c) <==> exists i :: 0 <= i < |parts| && parts[i].cc == c
  {
    if Component(g, c) {
      Nonempty(c);
      var x :| x in c;
      assert x in Covered(parts);
      CoveredIn(parts, x);
      var i :| 0 <= i < |parts| && x in parts[i].cc;
      assert SolvedWell(g, heur, parts[i]);
      ComponentsMeet(g, c, parts[i].cc, x);
    }
    if exists i :: 0 <= i < |parts| && parts[i].cc == c {
      var i :| 0 <= i < |parts| && parts[i].cc == c;
      assert SolvedWell(g, heur, parts[i]);
    }
  }

  /** Every move logged for the components solved joins two vertices of the same component. */
  lemma {:induction false} MovesIn(g: Shape, heur: Shape -> (int, ContrSeq), parts: seq<Solved>)
    requires AllSolved(g, heur, parts)
    ensures PairsIn(Moves(parts), Covered(parts))
  {
    if parts != [] {
      var init, p := parts[..|parts| - 1], parts[|parts| - 1];
      SolvedInit(g, heur, parts);
      MovesIn(g, heur, init);
      SolvedInside(g, heur, p);
      PairsJoin(Moves(init), p.kernel, p.sol, Covered(init), p.cc);
    }
  }

  /** The components solved before the last one were solved well, and so was the last. */
  lemma SolvedInit(g: Shape, heur: Shape -> (int, ContrSeq), parts: seq<Solved>)
    requires AllSolved(g, heur, parts) && parts != []
    ensures AllSolved(g, heur, parts[..|parts| - 1]) && SolvedWell(g, heur, parts[|parts| - 1])
  {
    var init := parts[..|parts| - 1];
    forall i | 0 <= i < |init|
      ensures SolvedWell(g, heur, init[i])
    {
      assert init[i] == parts[i];
    }
  }

  /** Moves inside `A` followed by moves inside `B` are moves inside `A + B`. */
  lemma PairsJoin(a: ContrSeq, b: ContrSeq, c: ContrSeq, A: set<int>, B: set<int>)
    requires PairsIn(a, A) && PairsIn(b + c, B)
    ensures PairsIn(a + b + c, A + B)
  {
    forall p | p in a + b + c
      ensures p.0 in A + B && p.1 in A + B
    {
      if p !in a {
        assert p in b + c;
      }
    }
  }

  /** A well-solved component logs moves between its own vertices only. */
  lemma SolvedInside(g: Shape, heur: Shape -> (int, ContrSeq), p: Solved)
    requires SolvedWell(g, heur, p)
    ensures PairsIn(p.kernel + p.sol, p.cc)
  {
  }

  /** Each component raised the bound it started from to its sampled bound and the value reached. */
  ghost predicate LbSteps(parts: seq<Solved>)
  {
    forall i :: 0 <= i < |parts| ==>
      parts[i].ccLb >= parts[i].lbIn && parts[i].lbOut == Max(parts[i].ccLb, Min(parts[i].score, parts[i].ub))
  }

  /** Well-solved components step the bound as `LbSteps` says. */
  lemma SolvedSteps(g: Shape, heur: Shape -> (int, ContrSeq), parts: seq<Solved>)
    requires AllSolved(g, heur, parts)
    ensures LbSteps(parts)
  {
    forall i | 0 <= i < |parts|
      ensures parts[i].ccLb >= parts[i].lbIn && parts[i].lbOut == Max(parts[i].ccLb, Min(parts[i].score, parts[i].ub))
    {
      assert SolvedWell(g, heur, parts[i]);
    }
  }

  /**
   * The bound only grows along the components: each one starts from at
   * least `full_width()`, and the bound left at the end is at least every
   * component's sampled bound and the value reached on it.
   */
  lemma {:induction false} LbGrows(lb0: int, parts: seq<Solved>)
    requires LbSteps(parts) && LbChain(lb0, parts)
    ensures LbAfter(lb0, parts) >= lb0
    ensures forall i :: 0 <= i < |parts| ==> lb0 <= parts[i].lbIn && parts[i].ccLb <= LbAfter(lb0, parts)
    ensures forall i :: 0 <= i < |parts| ==> Min(parts[i].score, parts[i].ub) <= LbAfter(lb0, parts)
  {
    if parts != [] {
      var init, p := parts[..|parts| - 1], parts[|parts| - 1];
      assert LbSteps(init) && LbChain(lb0, init) by {
        forall i | 0 <= i < |init|
          ensures init[i] == parts[i] && init[..i] == parts[..i]
        {
        }
      }
      LbGrows(lb0, init);
      assert p.lbIn == LbAfter(lb0, init);
      forall i | 0 <= i < |parts|
        ensures lb0 <= parts[i].lbIn && parts[i].ccLb <= LbAfter(lb0, parts)
        ensures Min(parts[i].score, parts[i].ub) <= LbAfter(lb0, parts)
      {
        if i < |init| {
          assert parts[i] == init[i];
        }
      }
    }
  }
}
