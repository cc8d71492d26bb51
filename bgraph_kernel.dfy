/**
 * The exact kernelization of the dense graph: a vertex `v` dominated by
 * `u` is removed outright, because merging it into `u` would create no
 * red edge (`Trigraph.DominatedMergeIsErase`). Passes repeat until a
 * whole pass removes nothing.
 */
module BitKernel {
  import opened Common
  import opened Trigraph
  import opened BitGraphs

  /**
   * `dominates(u, v)`: merging `v` into `u` gives `u` no red neighbour it
   * does not already have.
   */
  predicate Dominates(g: BitGraph, u: int, v: int)
    reads g
    requires g.Valid() && u in g.mask && v in g.mask && u != v
    ensures Dominates(g, u, v) ==> Trigraph.MergeCost(g.State(), u, v) <= g.red[u] - {v}
    ensures Trigraph.MergeCost(g.State(), u, v) <= g.red[u] - {v} ==> Dominates(g, u, v)
  {
    DominatesIffNoNewRed(g.State(), u, v);
    Trigraph.Dominates(g.State(), u, v)
  }

  /**
   * The vertices `find_one_dominating` tests against `u`: active, other
   * than `u`, and black-adjacent to every black neighbour of `u`.
   */
  ghost predicate IsCandidate(s: Shape, u: int, v: int)
    requires Index(s, u)
  {
    && v in s.mask && v != u
    && forall w :: w in s.adj[u] && 0 <= w < |s.adj| ==> v in s.adj[w]
  }

  /**
   * On a well-formed trigraph the candidates of `u` are the active vertices
   * whose black row contains that of `u`; a black neighbour of `u` never
   * qualifies, since it is not its own neighbour.
   */
  lemma CandidateIffContains(s: Shape, u: int, v: int)
    requires WellFormed(s) && u in s.mask
    ensures IsCandidate(s, u, v) ==> v in s.mask && v != u && s.adj[u] <= s.adj[v]
    ensures v in s.mask && v != u && s.adj[u] <= s.adj[v] ==> IsCandidate(s, u, v)
    ensures IsCandidate(s, u, v) ==> v !in s.adj[u]
  {
    if IsCandidate(s, u, v) {
      forall w | w in s.adj[u]
        ensures w in s.adj[v]
      {
        assert v in s.adj[w];
      }
    }
    if v in s.mask && v != u && s.adj[u] <= s.adj[v] {
      forall w | w in s.adj[u] && 0 <= w < |s.adj|
        ensures v in s.adj[w]
      {
        assert w in s.adj[v];
      }
    }
  }

  /** No active vertex has a candidate it dominates: the fixed point of the passes. */
  ghost predicate Reduced(s: Shape)
    requires WellFormed(s)
  {
    forall u, v :: u in s.mask && IsCandidate(s, u, v) ==> !Trigraph.Dominates(s, u, v)
  }

  /**
   * The candidate set of `find_one_dominating`: all active vertices but
   * `u`, intersected with the black row of each black neighbour of `u`.
   */
  method Candidates(g: BitGraph, u: int) returns (c: set<int>)
    requires g.Valid() && u in g.mask
    ensures forall v :: v in c ==> IsCandidate(g.State(), u, v)
    ensures forall v :: IsCandidate(g.State(), u, v) ==> v in c
  {
    c := g.mask - {u};
    var black := g.adj[u];
    for w := 0 to g.n
      invariant forall v :: v in c <==>
        v in g.mask && v != u && forall x :: x in black && 0 <= x < w ==> v in g.adj[x]
    {
      if w in black {
        c := c * g.adj[w];
      }
    }
  }

  /**
   * `merge_dominating(u, v, seq)`: deletes `v`, joins the labels of `u`
   * and `v`, and logs `(u, v)`. The widths are not touched. When `u`
   * dominates `v`, the active trigraph left is the one the full merge
   * would leave.
   */
  method MergeDominating(g: BitGraph, u: int, v: int, s: ContrSeq) returns (s': ContrSeq)
    requires g.Valid() && u in g.mask && v in g.mask && u != v
    modifies g
    ensures g.Valid()
    ensures g.State() == Erased(old(g.State()), v)
    ensures old(Trigraph.Dominates(g.State(), u, v)) ==> SameActive(Merged(old(g.State()), u, v), g.State())
    ensures g.fullTww == old(g.fullTww) && g.curTww == old(g.curTww)
    ensures g.key == Relabelled(old(g.key), Min(old(g.key[u]), old(g.key[v])), Max(old(g.key[u]), old(g.key[v])))
    ensures s' == s + [(u, v)]
    ensures PairsBelow(s, g.n) ==> PairsBelow(s', g.n)
  {
    ghost var g0 := g.State();
    ErasedWellFormed(g0, v);
    if Trigraph.Dominates(g0, u, v) {
      DominatedMergeIsErase(g0, u, v);
    }
    KeysAfterMerge(g.key, g.mask, u, v);
    g.Erase(v);
    g.UpdateKey(u, v);
    s' := s + [(u, v)];
  }

  /**
   * `find_one_dominating(seq)`: takes the active vertices in ascending
   * order; for the first `u` with a dominated candidate, removes every
   * candidate `u` dominates (in ascending order, each checked against the
   * current graph) and reports true. Reports false, changing nothing, when
   * no active vertex dominates one of its candidates.
   */
  method FindOneDominating(g: BitGraph, s: ContrSeq) returns (found: bool, s': ContrSeq)
    requires g.Valid()
    modifies g
    ensures g.Valid()
    ensures g.fullTww == old(g.fullTww) && g.curTww == old(g.curTww)
    ensures g.mask <= old(g.mask) && (old(g.mask) != {} ==> g.mask != {})
    ensures found <==> |g.mask| < old(|g.mask|)
    ensures |g.mask| <= old(|g.mask|) && |s'| == |s| + old(|g.mask|) - |g.mask| && s'[..|s|] == s
    ensures !found ==> g.State() == old(g.State()) && g.key == old(g.key) && Reduced(g.State())
    ensures old(Reduced(g.State())) ==> !found
    ensures PairsBelow(s, g.n) ==> PairsBelow(s', g.n)
  {
    var verts := g.mask;
    for u := 0 to g.n
      invariant g.Valid() && g.State() == old(g.State()) && g.key == old(g.key)
      invariant g.fullTww == old(g.fullTww) && g.curTww == old(g.curTww)
      invariant forall x, v :: x in verts && x < u && IsCandidate(g.State(), x, v) ==>
        !Trigraph.Dominates(g.State(), x, v)
    {
      if u in verts {
        var cands := Candidates(g, u);
        found, s' := RemoveDominated(g, u, cands, s);
        if found {
          return;
        }
      }
    }
    found, s' := false, s;
    assert forall x :: x in g.mask ==> 0 <= x < g.n;
  }

  /**
   * The inner loop of `find_one_dominating` for one vertex `u`: every
   * candidate that `u` dominates, checked in ascending order against the
   * current graph, is removed by `merge_dominating`.
   */
  method RemoveDominated(g: BitGraph, u: int, cands: set<int>, s: ContrSeq) returns (erased: bool, s': ContrSeq)
    requires g.Valid() && u in g.mask
    requires forall v :: v in cands <==> IsCandidate(g.State(), u, v)
    modifies g
    ensures g.Valid() && u in g.mask
    ensures g.fullTww == old(g.fullTww) && g.curTww == old(g.curTww)
    ensures g.mask <= old(g.mask)
    ensures erased <==> |g.mask| < old(|g.mask|)
    ensures |g.mask| <= old(|g.mask|) && |s'| == |s| + old(|g.mask|) - |g.mask| && s'[..|s|] == s
    ensures !erased ==> g.State() == old(g.State()) && g.key == old(g.key)
    ensures !erased ==> forall v :: IsCandidate(g.State(), u, v) ==> !Trigraph.Dominates(g.State(), u, v)
    ensures old(forall v :: IsCandidate(g.State(), u, v) ==> !Trigraph.Dominates(g.State(), u, v)) ==> !erased
    ensures PairsBelow(s, g.n) ==> PairsBelow(s', g.n)
  {
    erased, s' := false, s;
    for v := 0 to g.n
      invariant g.Valid() && u in g.mask && u !in cands
      invariant g.fullTww == old(g.fullTww) && g.curTww == old(g.curTww)
      invariant g.mask <= old(g.mask)
      invariant forall x :: x in cands && v <= x ==> x in g.mask
      invariant erased <==> |g.mask| < old(|g.mask|)
      invariant |g.mask| <= old(|g.mask|) && |s'| == |s| + old(|g.mask|) - |g.mask| && s'[..|s|] == s
      invariant !erased ==> g.State() == old(g.State()) && g.key == old(g.key)
      invariant !erased ==> forall x :: x in cands && x < v ==> !Trigraph.Dominates(g.State(), u, x)
      invariant old(forall x :: IsCandidate(g.State(), u, x) ==> !Trigraph.Dominates(g.State(), u, x)) ==> !erased
      invariant PairsBelow(s, g.n) ==> PairsBelow(s', g.n)
    {
      ghost var m1, s1 := g.mask, s';
      if v in cands && !erased {
        assert IsCandidate(old(g.State()), u, v);
      }
      erased, s' := TryCandidate(g, u, v, cands, erased, s');
      Logged(s, s1, s', old(g.mask), m1, g.mask);
    }
  }

  /**
   * The inner loop's body for one `v`: when `v` is a candidate, test it
   * and remove it if `u` dominates it.
   */
  method TryCandidate(g: BitGraph, u: int, v: int, cands: set<int>, erased: bool, s: ContrSeq)
    returns (erased': bool, s': ContrSeq)
    requires g.Valid() && u in g.mask && u !in cands && (v in cands ==> v in g.mask)
    modifies g
    ensures g.Valid() && u in g.mask
    ensures g.fullTww == old(g.fullTww) && g.curTww == old(g.curTww)
    ensures g.mask <= old(g.mask) && forall x :: x in old(g.mask) && x != v ==> x in g.mask
    ensures erased' == (erased || |g.mask| < old(|g.mask|))
    ensures |g.mask| <= old(|g.mask|) && |s'| == |s| + old(|g.mask|) - |g.mask| && s'[..|s|] == s
    ensures |g.mask| == old(|g.mask|) ==> g.State() == old(g.State()) && g.key == old(g.key)
    ensures v in cands && |g.mask| == old(|g.mask|) ==> !Trigraph.Dominates(g.State(), u, v)
    ensures v !in cands || old(!Trigraph.Dominates(g.State(), u, v)) ==> |g.mask| == old(|g.mask|)
    ensures PairsBelow(s, g.n) ==> PairsBelow(s', g.n)
  {
    erased', s' := erased, s;
    if v in cands {
      var did;
      did, s' := RemoveIfDominated(g, u, v, s);
      erased' := erased || did;
    }
  }

  /** One test of the inner loop: `v` is removed when `u` dominates it. */
  method RemoveIfDominated(g: BitGraph, u: int, v: int, s: ContrSeq) returns (did: bool, s': ContrSeq)
    requires g.Valid() && u in g.mask && v in g.mask && u != v
    modifies g
    ensures g.Valid() && u in g.mask
    ensures g.fullTww == old(g.fullTww) && g.curTww == old(g.curTww)
    ensures did <==> old(Trigraph.Dominates(g.State(), u, v))
    ensures did ==> g.mask == old(g.mask) - {v} && |g.mask| == old(|g.mask|) - 1 && s' == s + [(u, v)]
    ensures !did ==> g.State() == old(g.State()) && g.key == old(g.key) && s' == s
    ensures PairsBelow(s, g.n) ==> PairsBelow(s', g.n)
  {
    did, s' := false, s;
    if Dominates(g, u, v) {
      ghost var m0 := g.mask;
      s' := MergeDominating(g, u, v, s);
      assert m0 == g.mask + {v} && v !in g.mask;
      did := true;
    }
  }

  /**
   * `find_dominating(seq)`: repeats `find_one_dominating` until it
   * reports false; returns whether anything was removed.
   */
  method FindDominating(g: BitGraph, s: ContrSeq) returns (res: bool, s': ContrSeq)
    requires g.Valid()
    modifies g
    ensures g.Valid() && Reduced(g.State())
    ensures g.fullTww == old(g.fullTww) && g.curTww == old(g.curTww)
    ensures g.mask <= old(g.mask) && (old(g.mask) != {} ==> g.mask != {})
    ensures res <==> |g.mask| < old(|g.mask|)
    ensures |g.mask| <= old(|g.mask|) && |s'| == |s| + old(|g.mask|) - |g.mask| && s'[..|s|] == s
    ensures old(Reduced(g.State())) ==> !res && g.State() == old(g.State()) && g.key == old(g.key)
    ensures PairsBelow(s, g.n) ==> PairsBelow(s', g.n)
  {
    res, s' := false, s;
    var cont := true;
    while cont
      invariant g.Valid()
      invariant g.fullTww == old(g.fullTww) && g.curTww == old(g.curTww)
      invariant g.mask <= old(g.mask) && (old(g.mask) != {} ==> g.mask != {})
      invariant res <==> |g.mask| < old(|g.mask|)
      invariant |g.mask| <= old(|g.mask|) && |s'| == |s| + old(|g.mask|) - |g.mask| && s'[..|s|] == s
      invariant !cont ==> Reduced(g.State())
      invariant old(Reduced(g.State())) ==> !res && g.State() == old(g.State()) && g.key == old(g.key)
      invariant PairsBelow(s, g.n) ==> PairsBelow(s', g.n)
      decreases |g.mask| + (if cont then 1 else 0)
    {
      ghost var s0 := s';
      cont, s' := FindOneDominating(g, s');
      assert s'[..|s|] == s0[..|s0|][..|s|];
      res := res || cont;
    }
  }

  /**
   * `kernelize()`: runs `find_dominating` until it removes nothing.
   * Every move removes one active vertex and leaves both widths alone;
   * at the end no active vertex dominates one of its candidates, and a
   * graph already in that state is left as it is with no move logged.
   */
  method Kernelize(g: BitGraph) returns (res: ContrSeq)
    requires g.Valid()
    modifies g
    ensures g.Valid() && Reduced(g.State())
    ensures g.fullTww == old(g.fullTww) && g.curTww == old(g.curTww)
    ensures g.mask <= old(g.mask) && (old(g.mask) != {} ==> g.mask != {})
    ensures |g.mask| <= old(|g.mask|) && |res| == old(|g.mask|) - |g.mask|
    ensures old(Reduced(g.State())) ==> res == [] && g.State() == old(g.State()) && g.key == old(g.key)
    ensures PairsBelow(res, g.n)
  {
    res := [];
    var cont := true;
    while cont
      invariant g.Valid()
      invariant g.fullTww == old(g.fullTww) && g.curTww == old(g.curTww)
      invariant g.mask <= old(g.mask) && (old(g.mask) != {} ==> g.mask != {})
      invariant |g.mask| <= old(|g.mask|) && |res| == old(|g.mask|) - |g.mask|
      invariant !cont ==> Reduced(g.State())
      invariant old(Reduced(g.State())) ==> res == [] && g.State() == old(g.State()) && g.key == old(g.key)
      invariant PairsBelow(res, g.n)
      decreases |g.mask| + (if cont then 1 else 0)
    {
      cont, res := FindDominating(g, res);
    }
  }
}
