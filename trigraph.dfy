/**
 * The state both graph classes share, as a value: a black row and a red
 * row per vertex index, and the set of active (not yet contracted)
 * vertices. Rows of contracted vertices are left as they were when the
 * vertex was removed, so only active rows are constrained.
 *
 * The contraction rule is defined once here, exactly as the graph code
 * performs it, together with the facts the kernelization relies on:
 * domination and twins.
 */
module Trigraph {

  datatype Shape = Shape(adj: seq<set<int>>, red: seq<set<int>>, mask: set<int>)

  /** `u` indexes a row of `g`. */
  predicate Index(g: Shape, u: int)
  {
    |g.red| == |g.adj| && 0 <= u < |g.adj|
  }

  /**
   * A well-formed trigraph: active vertices index rows, active rows only
   * hold other active vertices, no vertex is both a black and a red
   * neighbour, and both relations are symmetric.
   */
  ghost predicate WellFormed(g: Shape)
  {
    && |g.red| == |g.adj|
    && (forall u :: u in g.mask ==> 0 <= u < |g.adj|)
    && (forall u :: u in g.mask ==> g.adj[u] <= g.mask - {u} && g.red[u] <= g.mask - {u})
    && (forall u :: u in g.mask ==> g.adj[u] * g.red[u] == {})
    && (forall u, v :: u in g.mask && v in g.adj[u] ==> u in g.adj[v])
    && (forall u, v :: u in g.mask && v in g.red[u] ==> u in g.red[v])
  }

  /**
   * The red row `u` gets when `v` is merged into it: the red neighbours of
   * either vertex and every vertex adjacent in black to exactly one of
   * them, without `u` and `v` themselves.
   */
  function MergeCost(g: Shape, u: int, v: int): set<int>
    requires Index(g, u) && Index(g, v)
  {
    (g.red[u] + g.red[v] + (g.adj[u] - g.adj[v]) + (g.adj[v] - g.adj[u])) - {u, v}
  }

  /**
   * Deleting `v`: every vertex listed in a row of `v` forgets `v`, and `v`
   * leaves the mask. The rows of `v` itself are kept.
   */
  function Erased(g: Shape, v: int): (r: Shape)
    requires Index(g, v)
    ensures |r.adj| == |g.adj| && |r.red| == |g.red|
  {
    Shape(
      seq(|g.adj|, w requires 0 <= w < |g.adj| => if w in g.adj[v] then g.adj[w] - {v} else g.adj[w]),
      seq(|g.red|, w requires 0 <= w < |g.red| => if w in g.red[v] then g.red[w] - {v} else g.red[w]),
      g.mask - {v})
  }

  /**
   * Merging `v` into `u`, step for step: drop the edges between them, give
   * `u` the red row `MergeCost` and the common black neighbours, make `u`
   * a red neighbour of each vertex of that red row (removing any black
   * edge to `u`), then delete `v`.
   */
  function Merged(g: Shape, u: int, v: int): (r: Shape)
    requires Index(g, u) && Index(g, v) && u != v
    ensures |r.adj| == |g.adj| && |r.red| == |g.red|
  {
    var h := MergeCost(g, u, v);
    var av := g.adj[v] - {u};
    var rv := g.red[v] - {u};
    Shape(
      seq(|g.adj|, w requires 0 <= w < |g.adj| =>
        var a1 := if w == u then (g.adj[u] - {v}) * av
                  else if w == v then av
                  else if w in h then g.adj[w] - {u}
                  else g.adj[w];
        if w in av then a1 - {v} else a1),
      seq(|g.red|, w requires 0 <= w < |g.red| =>
        var r1 := if w == u then h
                  else if w == v then rv
                  else if w in h then g.red[w] + {u}
                  else g.red[w];
        if w in rv then r1 - {v} else r1),
      g.mask - {v})
  }

  /**
   * The merge on the active part of a well-formed trigraph: `u` keeps
   * its common black neighbours and gets the red row `MergeCost`; each
   * vertex of that red row turns its edge to `u` red; every other active
   * vertex only forgets `v`; `v` leaves the mask.
   */
  lemma MergedActive(g: Shape, u: int, v: int)
    requires WellFormed(g) && u in g.mask && v in g.mask && u != v
    ensures Merged(g, u, v).mask == g.mask - {v}
    ensures Merged(g, u, v).adj[u] == (g.adj[u] * g.adj[v]) - {u, v}
    ensures Merged(g, u, v).red[u] == MergeCost(g, u, v)
    ensures forall w :: w in g.mask && w != u && w != v && w in MergeCost(g, u, v) ==>
      Merged(g, u, v).adj[w] == g.adj[w] - {u, v} && Merged(g, u, v).red[w] == (g.red[w] - {v}) + {u}
    ensures forall w :: w in g.mask && w != u && w != v && w !in MergeCost(g, u, v) ==>
      Merged(g, u, v).adj[w] == g.adj[w] - {v} && Merged(g, u, v).red[w] == g.red[w] - {v}
  {
    var r, h := Merged(g, u, v), MergeCost(g, u, v);
    forall w | w in g.mask && w != u && w != v
      ensures r.adj[w] == (if w in h then g.adj[w] - {u, v} else g.adj[w] - {v})
      ensures r.red[w] == (if w in h then (g.red[w] - {v}) + {u} else g.red[w] - {v})
    {
      assert (w in g.adj[v]) == (v in g.adj[w]);
      assert (w in g.red[v]) == (v in g.red[w]);
      assert (u in g.adj[w]) == (w in g.adj[u]);
      assert (u in g.red[w]) == (w in g.red[u]);
    }
  }

  /** Merging two active vertices of a well-formed trigraph keeps it well formed. */
  lemma MergedWellFormed(g: Shape, u: int, v: int)
    requires WellFormed(g) && u in g.mask && v in g.mask && u != v
    ensures WellFormed(Merged(g, u, v))
  {
    var r, h := Merged(g, u, v), MergeCost(g, u, v);
    MergedActive(g, u, v);
    assert h <= g.mask - {u, v};
    forall w | w in r.mask
      ensures r.adj[w] <= r.mask - {w} && r.red[w] <= r.mask - {w} && r.adj[w] * r.red[w] == {}
    {
    }
    forall a, b | a in r.mask && b in r.adj[a]
      ensures a in r.adj[b]
    {
      assert b in r.mask;
    }
    forall a, b | a in r.mask && b in r.red[a]
      ensures a in r.red[b]
    {
      assert b in r.mask;
    }
  }

  /** Deleting an active vertex keeps a trigraph well formed. */
  lemma ErasedWellFormed(g: Shape, v: int)
    requires WellFormed(g) && v in g.mask
    ensures WellFormed(Erased(g, v))
    ensures forall w :: w in g.mask && w != v ==>
      Erased(g, v).adj[w] == g.adj[w] - {v} && Erased(g, v).red[w] == g.red[w] - {v}
  {
    var r := Erased(g, v);
    forall w | w in g.mask && w != v
      ensures r.adj[w] == g.adj[w] - {v} && r.red[w] == g.red[w] - {v}
    {
      assert (w in g.adj[v]) == (v in g.adj[w]);
      assert (w in g.red[v]) == (v in g.red[w]);
    }
  }

  /**
   * `u` dominates `v`: leaving out the two vertices themselves, every
   * black neighbour of `u` is a black neighbour of `v`, and every black
   * neighbour `v` has beyond those of `u`, and every red neighbour of `v`,
   * is a red neighbour of `u`.
   */
  predicate Dominates(g: Shape, u: int, v: int)
    requires Index(g, u) && Index(g, v)
  {
    var nu, rnu := g.adj[u] - {v}, g.red[u] - {v};
    var nv, rnv := g.adj[v] - {u}, g.red[v] - {u};
    nu <= nv && ((nv - nu) + rnv) <= rnu
  }

  /**
   * Domination is exactly the case where merging `v` into `u` gives `u`
   * no red neighbour it did not already have.
   */
  lemma DominatesIffNoNewRed(g: Shape, u: int, v: int)
    requires WellFormed(g) && u in g.mask && v in g.mask && u != v
    ensures Dominates(g, u, v) ==> MergeCost(g, u, v) <= g.red[u] - {v}
    ensures MergeCost(g, u, v) <= g.red[u] - {v} ==> Dominates(g, u, v)
  {
    var nu, rnu := g.adj[u] - {v}, g.red[u] - {v};
    var nv, rnv := g.adj[v] - {u}, g.red[v] - {u};
    var h := MergeCost(g, u, v);
    if h <= g.red[u] - {v} {
      forall x | x in nu
        ensures x in nv
      {
        assert x !in g.red[u];
        assert x in g.adj[u] - g.adj[v] ==> x in h;
      }
    }
  }

  /** Two trigraphs agree on the active vertices and their rows. */
  ghost predicate SameActive(g: Shape, r: Shape)
  {
    && g.mask == r.mask
    && (forall w :: w in g.mask ==> 0 <= w < |g.adj| && 0 <= w < |r.adj| && 0 <= w < |g.red| && 0 <= w < |r.red|)
    && (forall w :: w in g.mask ==> g.adj[w] == r.adj[w] && g.red[w] == r.red[w])
  }

  /**
   * When `u` dominates `v`, merging `v` into `u` and simply deleting `v`
   * leave the same active trigraph: this is why a dominated vertex is
   * removed without touching any other row.
   */
  lemma DominatedMergeIsErase(g: Shape, u: int, v: int)
    requires WellFormed(g) && u in g.mask && v in g.mask && u != v
    requires Dominates(g, u, v)
    ensures SameActive(Merged(g, u, v), Erased(g, v))
  {
    var m, e, h := Merged(g, u, v), Erased(g, v), MergeCost(g, u, v);
    DominatesIffNoNewRed(g, u, v);
    MergedActive(g, u, v);
    ErasedWellFormed(g, v);
    assert h == g.red[u] - {v};
    assert m.adj[u] == g.adj[u] - {v};
    forall w | w in m.mask && w != u && w in h
      ensures m.adj[w] == e.adj[w] && m.red[w] == e.red[w]
    {
      assert u in g.red[w] && u !in g.adj[w];
    }
  }

  /**
   * Merging two vertices without red edges whose black neighbourhoods,
   * apart from each other, coincide creates no red edge at all. This
   * covers true twins (equal closed neighbourhoods) and false twins
   * (equal open neighbourhoods).
   */
  lemma TwinsMergeWithoutRed(g: Shape, u: int, v: int)
    requires WellFormed(g) && u in g.mask && v in g.mask && u != v
    requires g.red[u] == {} && g.red[v] == {}
    requires g.adj[u] - {v} == g.adj[v] - {u}
    ensures MergeCost(g, u, v) == {}
    ensures Merged(g, u, v).red[u] == {}
    ensures forall w :: w in g.mask && w != v ==> Merged(g, u, v).red[w] == g.red[w] - {v}
  {
    forall x | x in g.adj[u] - {u, v}
      ensures x in g.adj[v]
    {
      assert x in g.adj[u] - {v};
    }
    forall x | x in g.adj[v] - {u, v}
      ensures x in g.adj[u]
    {
      assert x in g.adj[v] - {u};
    }
    assert MergeCost(g, u, v) == {};
    MergedActive(g, u, v);
  }

  /**
   * `x` is the larger of `base` and the red degrees over `s`: it bounds
   * them all and equals `base` or one of them.
   */
  ghost predicate IsMaxRedDeg(x: int, base: int, red: seq<set<int>>, s: set<int>)
  {
    && x >= base
    && (forall w :: w in s && 0 <= w < |red| ==> x >= |red[w]|)
    && (x == base || exists w :: w in s && 0 <= w < |red| && x == |red[w]|)
  }

  /** The maximum is unique: two values that both qualify are equal. */
  lemma IsMaxRedDegUnique(x: int, y: int, base: int, red: seq<set<int>>, s: set<int>)
    requires IsMaxRedDeg(x, base, red, s) && IsMaxRedDeg(y, base, red, s)
    ensures x == y
  {
  }
}
