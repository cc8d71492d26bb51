/**
 * The sparse contraction graph `Graph` that holds the whole input: one
 * `unordered_set` row per vertex and colour, the set of active vertices,
 * the width reached so far and the log of the contractions made.
 *
 * Range-for loops over an `unordered_set` visit its members in an
 * unspecified order; the loops below take the next member with `:|`, so
 * every proof holds for every visiting order.
 */
module Graphs {
  import opened Common
  import opened Trigraph
  import BitGraphs
  import LongBitsets

  /**
   * `m_inv` numbers the vertices of `vx` as 0..|vx|-1 and `m` is its
   * inverse: `m[i]` is the vertex numbered `i`.
   */
  ghost predicate Numbering(vx: set<int>, mInv: seq<int>, m: seq<int>)
  {
    && |m| == |vx|
    && (forall i :: 0 <= i < |m| ==> m[i] in vx && 0 <= m[i] < |mInv| && mInv[m[i]] == i)
    && (forall x :: x in vx ==> 0 <= x < |mInv| && 0 <= mInv[x] < |m| && m[mInv[x]] == x)
  }

  /** The black (`isRed` false) or red rows of a trigraph. */
  function Rows(g: Shape, isRed: bool): seq<set<int>>
  {
    if isRed then g.red else g.adj
  }

  /**
   * The rows `rows` of the dense copy under construction hold exactly the
   * edges of `src` between numbered vertices at least one of which is in
   * `done`, and only numbers 0..|m|-1.
   */
  ghost predicate CopiedRows(rows: seq<set<int>>, src: seq<set<int>>, m: seq<int>, done: set<int>)
  {
    && |rows| == |m|
    && (forall i :: 0 <= i < |m| ==> 0 <= m[i] < |src|)
    && (forall i :: 0 <= i < |m| ==> forall j :: j in rows[i] ==> 0 <= j < |m|)
    && (forall i :: 0 <= i < |m| ==> forall j :: 0 <= j < |m| ==>
         (j in rows[i] <==> m[j] in src[m[i]] && (m[i] in done || m[j] in done)))
  }

  /**
   * Once every vertex of `vx` is done, the copied rows are the rows of a
   * well-formed trigraph on 0..|vx|-1 that mirrors `g` on `vx`.
   */
  lemma CopiedWellFormed(g: Shape, vx: set<int>, mInv: seq<int>, m: seq<int>, a: seq<set<int>>, r: seq<set<int>>)
    requires WellFormed(g) && vx <= g.mask && Numbering(vx, mInv, m)
    requires CopiedRows(a, g.adj, m, vx) && CopiedRows(r, g.red, m, vx)
    ensures WellFormed(Shape(a, r, Below(|vx|)))
  {
    CopiedLoopFree(a, g.adj, vx, mInv, m);
    CopiedLoopFree(r, g.red, vx, mInv, m);
    CopiedSymmetric(a, g.adj, vx, mInv, m);
    CopiedSymmetric(r, g.red, vx, mInv, m);
    CopiedDisjoint(g, a, r, vx, mInv, m);
    RowsWellFormed(a, r, |vx|);
  }

  /** A vertex never gets the same number as a black and as a red neighbour. */
  lemma CopiedDisjoint(g: Shape, a: seq<set<int>>, r: seq<set<int>>, vx: set<int>, mInv: seq<int>, m: seq<int>)
    requires WellFormed(g) && vx <= g.mask && Numbering(vx, mInv, m)
    requires CopiedRows(a, g.adj, m, vx) && CopiedRows(r, g.red, m, vx)
    ensures forall i :: 0 <= i < |m| ==> a[i] * r[i] == {}
  {
    forall i | 0 <= i < |m|
      ensures a[i] * r[i] == {}
    {
      assert m[i] in g.mask;
      forall j | j in a[i]
        ensures j !in r[i]
      {
        assert 0 <= j < |m| && m[j] in g.adj[m[i]];
      }
    }
  }

  /** Loop-free, symmetric, disjoint rows over 0..k-1 form a well-formed trigraph. */
  lemma RowsWellFormed(a: seq<set<int>>, r: seq<set<int>>, k: nat)
    requires |a| == k && |r| == k
    requires forall i :: 0 <= i < k ==> a[i] <= Below(k) - {i} && r[i] <= Below(k) - {i}
    requires forall i, j :: 0 <= i < k && j in a[i] ==> 0 <= j < k && i in a[j]
    requires forall i, j :: 0 <= i < k && j in r[i] ==> 0 <= j < k && i in r[j]
    requires forall i :: 0 <= i < k ==> a[i] * r[i] == {}
    ensures WellFormed(Shape(a, r, Below(k)))
  {
    var g := Shape(a, r, Below(k));
    assert forall u :: u in g.mask ==> 0 <= u < k;
    forall u, v | u in g.mask && v in a[u]
      ensures u in a[v]
    {
    }
    forall u, v | u in g.mask && v in r[u]
      ensures u in r[v]
    {
    }
  }

  /** Numbering one more vertex `u` with the next number. */
  lemma NumberOne(vx: set<int>, mInv: seq<int>, m: seq<int>, u: int)
    requires Numbering(vx, mInv, m) && u !in vx && 0 <= u < |mInv|
    ensures Numbering(vx + {u}, mInv[u := |m|], m + [u])
  {
  }

  /**
   * The rows of the dense copy in the middle of a row of `u`: the edges
   * of the vertices in `done`, and those from `u` to the vertices of `seen`.
   */
  ghost predicate PartRows(rows: seq<set<int>>, src: seq<set<int>>, m: seq<int>, done: set<int>, u: int, seen: set<int>)
  {
    && |rows| == |m|
    && (forall i :: 0 <= i < |m| ==> 0 <= m[i] < |src|)
    && (forall i :: 0 <= i < |m| ==> forall j :: j in rows[i] ==> 0 <= j < |m|)
    && (forall i :: 0 <= i < |m| ==> forall j :: 0 <= j < |m| ==>
         (j in rows[i] <==> (m[j] in src[m[i]] &&
           (m[i] in done || m[j] in done || (m[i] == u && m[j] in seen) || (m[j] == u && m[i] in seen)))))
  }

  /**
   * Looking at the neighbour `v` of `u`: when `v` is in `vx`, the edge
   * between their numbers is added in both rows.
   */
  lemma CopyEdge(rows: seq<set<int>>, rows': seq<set<int>>, src: seq<set<int>>, vx: set<int>, mInv: seq<int>,
                 m: seq<int>, done: set<int>, u: int, seen: set<int>, v: int)
    requires Numbering(vx, mInv, m) && PartRows(rows, src, m, done, u, seen) && u in vx
    requires v in src[u] && (v in vx ==> v != u && u in src[v])
    requires v in vx ==> rows' == rows[mInv[u] := rows[mInv[u]] + {mInv[v]}][mInv[v] := rows[mInv[v]] + {mInv[u]}]
    requires v !in vx ==> rows' == rows
    ensures PartRows(rows', src, m, done, u, seen + {v})
  {
    if v in vx {
      var a, b := mInv[u], mInv[v];
      forall i, j | 0 <= i < |m| && 0 <= j < |m|
        ensures j in rows'[i] <==> (m[j] in src[m[i]] &&
          (m[i] in done || m[j] in done || (m[i] == u && m[j] in seen + {v}) || (m[j] == u && m[i] in seen + {v})))
      {
        if (i == a && j == b) || (i == b && j == a) {
          assert m[a] == u && m[b] == v;
        } else {
          assert j in rows'[i] <==> j in rows[i];
          assert m[i] == v ==> i == b;
          assert m[j] == v ==> j == b;
          assert m[i] == u ==> i == a;
          assert m[j] == u ==> j == a;
        }
      }
    } else {
      forall i | 0 <= i < |m|
        ensures m[i] != v
      {
      }
    }
  }

  /** Once the whole row of `u` is seen, `u` counts as done. */
  lemma EndRow(rows: seq<set<int>>, src: seq<set<int>>, m: seq<int>, done: set<int>, u: int)
    requires 0 <= u < |src| && PartRows(rows, src, m, done, u, src[u])
    requires forall i :: 0 <= i < |m| ==> (u in src[m[i]] <==> m[i] in src[u])
    ensures CopiedRows(rows, src, m, done + {u})
  {
  }

  /**
   * With every vertex of `vx` done, the copied rows mirror `src`: through
   * `m` for the numbers and through `m_inv` for the vertices.
   */
  lemma MirrorByNumbering(rows: seq<set<int>>, src: seq<set<int>>, vx: set<int>, mInv: seq<int>, m: seq<int>)
    requires Numbering(vx, mInv, m) && CopiedRows(rows, src, m, vx)
    ensures forall i, j :: 0 <= i < |vx| && 0 <= j < |vx| ==> (j in rows[i] <==> m[j] in src[m[i]])
    ensures forall a, b :: a in vx && b in vx ==> (mInv[b] in rows[mInv[a]] <==> b in src[a])
  {
    forall i, j | 0 <= i < |vx| && 0 <= j < |vx|
      ensures j in rows[i] <==> m[j] in src[m[i]]
    {
      assert m[i] in vx;
    }
    forall a, b | a in vx && b in vx
      ensures mInv[b] in rows[mInv[a]] <==> b in src[a]
    {
      assert m[mInv[a]] == a && m[mInv[b]] == b;
    }
  }

  /**
   * The copied rows of one colour, for all of `vx`, are loop-free rows
   * over 0..|vx|-1 when `src` has no loop on `vx`.
   */
  lemma CopiedLoopFree(rows: seq<set<int>>, src: seq<set<int>>, vx: set<int>, mInv: seq<int>, m: seq<int>)
    requires Numbering(vx, mInv, m) && CopiedRows(rows, src, m, vx)
    requires forall u :: u in vx ==> 0 <= u < |src| && u !in src[u]
    ensures |rows| == |vx|
    ensures forall i :: 0 <= i < |vx| ==> rows[i] <= Below(|vx|) - {i}
  {
    forall i | 0 <= i < |m|
      ensures rows[i] <= Below(|m|) - {i}
    {
      assert m[i] in vx;
    }
  }

  /** The copied rows of one colour are symmetric when `src` is symmetric on `vx`. */
  lemma CopiedSymmetric(rows: seq<set<int>>, src: seq<set<int>>, vx: set<int>, mInv: seq<int>, m: seq<int>)
    requires Numbering(vx, mInv, m) && CopiedRows(rows, src, m, vx)
    requires forall u :: u in vx ==> 0 <= u < |src|
    requires forall u, v :: u in vx && v in vx && v in src[u] ==> u in src[v]
    ensures forall i, j :: 0 <= i < |vx| && j in rows[i] ==> 0 <= j < |vx| && i in rows[j]
  {
    forall i, j | 0 <= i < |m| && j in rows[i]
      ensures 0 <= j < |m| && i in rows[j]
    {
      assert m[i] in vx && m[j] in vx;
    }
  }

  /** A set of active vertices that no edge of either colour leaves. */
  ghost predicate Closed(g: Shape, s: set<int>)
  {
    && s <= g.mask
    && (forall x :: x in s ==> 0 <= x < |g.adj| && 0 <= x < |g.red| && g.adj[x] + g.red[x] <= s)
  }

  /**
   * A connected component over black and red edges: a nonempty closed
   * set of which no smaller nonempty set is closed.
   */
  ghost predicate Component(g: Shape, c: set<int>)
  {
    && c != {}
    && Closed(g, c)
    && (forall s :: s != {} && s <= c && Closed(g, s) ==> s == c)
  }

  /** With symmetric edges, the active vertices outside a closed set form a closed set. */
  lemma ComplementClosed(g: Shape, s: set<int>)
    requires WellFormed(g) && Closed(g, s)
    ensures Closed(g, g.mask - s)
  {
    forall x | x in g.mask - s
      ensures g.adj[x] + g.red[x] <= g.mask - s
    {
      forall y | y in g.adj[x] + g.red[x]
        ensures y !in s
      {
        assert x in g.adj[y] + g.red[y];
      }
    }
  }

  /**
   * A closed set containing `u` that every closed set containing `u`
   * includes is the component of `u`.
   */
  lemma LeastClosedIsComponent(g: Shape, c: set<int>, u: int)
    requires WellFormed(g) && Closed(g, c) && u in c
    requires forall s :: Closed(g, s) && u in s ==> c <= s
    ensures Component(g, c)
  {
    forall s | s != {} && s <= c && Closed(g, s)
      ensures s == c
    {
      Nonempty(s);
      var x :| x in s;
      if u !in s {
        ComplementClosed(g, s);
        assert false;
      }
    }
  }

  /** Two components that share a vertex are the same component. */
  lemma ComponentsMeet(g: Shape, c: set<int>, d: set<int>, x: int)
    requires Component(g, c) && Component(g, d) && x in c && x in d
    ensures c == d
  {
    assert x in c * d && c * d <= c && c * d <= d;
    assert Closed(g, c * d);
  }

  /**
   * Every vertex adjacent to a vertex of a closed set `s` is in `s`; in
   * particular a neighbour outside `s` of a vertex `x` shows `x` is not in `s`.
   */
  lemma OutsideClosed(g: Shape, s: set<int>, x: int)
    requires WellFormed(g) && Closed(g, s) && x in g.mask && x !in s
    ensures (g.adj[x] + g.red[x]) * s == {}
  {
    ComplementClosed(g, s);
  }

  /**
   * Merging keeps `full_tww` above every active red degree: only `u` and
   * its new red neighbours can gain red edges, and `full_tww` is raised
   * over exactly those.
   */
  lemma MergeKeepsWidthBound(g: Shape, u: int, v: int, f: int, f': int)
    requires WellFormed(g) && u in g.mask && v in g.mask && u != v
    requires forall w :: w in g.mask ==> f >= |g.red[w]|
    requires IsMaxRedDeg(f', Max(f, |Merged(g, u, v).red[u]|), Merged(g, u, v).red, Merged(g, u, v).red[u])
    ensures forall w :: w in Merged(g, u, v).mask ==> f' >= |Merged(g, u, v).red[w]|
  {
    var r := Merged(g, u, v);
    MergedActive(g, u, v);
    forall w | w in r.mask
      ensures f' >= |r.red[w]|
    {
      if w != u && w !in MergeCost(g, u, v) {
        assert r.red[w] <= g.red[w];
      }
    }
  }

  /**
   * Once the edges between `u` and `v` are erased, the union of the red
   * rows and the black symmetric difference is the merge cost: it cannot
   * hold `u` or `v` any more.
   */
  lemma CostAfterErase(g: Shape, u: int, v: int)
    requires WellFormed(g) && u in g.mask && v in g.mask && u != v
    ensures var a := g.adj[u := g.adj[u] - {v}][v := g.adj[v] - {u}];
            var r := g.red[u := g.red[u] - {v}][v := g.red[v] - {u}];
            r[u] + r[v] + ((a[u] - a[v]) + (a[v] - a[u])) == Trigraph.MergeCost(g, u, v)
  {
  }

  class Graph {
    const n: int
    var fullTww: int
    var adj: seq<set<int>>
    var red: seq<set<int>>
    var mask: set<int>
    var sq: ContrSeq

    /** The rows and mask as a `Trigraph.Shape` value. */
    function State(): Shape
      reads this
    {
      Shape(adj, red, mask)
    }

    /** One row of each colour per vertex. */
    ghost predicate Sized()
      reads this
    {
      0 <= n && |adj| == n && |red| == n
    }

    /** The class invariant: a well-formed trigraph over the vertices 0..n-1, and a width of at least 0. */
    ghost predicate Valid()
      reads this
    {
      Sized() && WellFormed(State()) && 0 <= fullTww
    }

    /** `Graph(n)`: all of 0..n-1 active, no edges, `full_tww = 0`, an empty log. */
    constructor (n: int)
      requires 0 <= n
      ensures Valid() && this.n == n
      ensures forall i :: i in mask <==> 0 <= i < n
      ensures forall i :: 0 <= i < n ==> adj[i] == {} && red[i] == {}
      ensures fullTww == 0 && sq == []
    {
      var m: set<int> := {};
      for i := 0 to n
        invariant forall j :: j in m <==> 0 <= j < i
      {
        m := m + {i};
      }
      this.n := n;
      fullTww := 0;
      adj := seq(n, _ => {});
      red := seq(n, _ => {});
      mask := m;
      sq := [];
    }

    /** `full_width()`. */
    function FullWidth(): int
      reads this
    {
      fullTww
    }

    /** `sol()`: the contractions logged so far. */
    function Sol(): ContrSeq
      reads this
    {
      sq
    }

    /** `actual_n()`: the number of active vertices, at most `n`. */
    function ActualN(): (r: int)
      reads this
      requires Valid()
      ensures r == |mask| && 0 <= r <= n
    {
      SubsetBelow(mask, n);
      |mask|
    }

    /** `deg(u)`. */
    function Deg(u: int): int
      reads this
      requires Sized() && 0 <= u < n
    {
      |adj[u]|
    }

    /** `red_deg(u)`. */
    function RedDeg(u: int): int
      reads this
      requires Sized() && 0 <= u < n
    {
      |red[u]|
    }

    /** `total_deg(u)`: with disjoint rows, the number of distinct neighbours. */
    function TotalDeg(u: int): (r: int)
      reads this
      requires Valid() && u in mask
      ensures r == |adj[u] + red[u]|
    {
      Deg(u) + RedDeg(u)
    }

    /** `adjacent(u, v)`: a black or a red edge joins them. */
    predicate Adjacent(u: int, v: int)
      reads this
      requires Sized() && 0 <= u < n
    {
      v in adj[u] || v in red[u]
    }

    /** Adjacency is symmetric on active vertices. */
    lemma AdjacentSymmetric(u: int, v: int)
      requires Valid() && u in mask && v in mask
      ensures Adjacent(u, v) == Adjacent(v, u)
    {
    }

    /** `is_deleted(u)`. */
    predicate IsDeleted(u: int)
      reads this
    {
      u !in mask
    }

    /** `merge_cost(u, v)`: `red(u) | red(v) | (adj(u) ^ adj(v))` without `u` and `v`. */
    method MergeCost(u: int, v: int) returns (r: set<int>)
      requires Sized() && 0 <= u < n && 0 <= v < n
      ensures r == Trigraph.MergeCost(State(), u, v)
    {
      var reds := SetOr(red[u], red[v]);
      var diff := SetXor(adj[u], adj[v]);
      r := SetOr(reds, diff);
      r := r - {u};
      r := r - {v};
    }

    /**
     * `add_edge(u, v)`: a black edge in both rows. Between two distinct
     * active vertices that no red edge joins, the graph stays valid.
     */
    method AddEdge(u: int, v: int)
      requires Sized() && 0 <= u < n && 0 <= v < n
      modifies this
      ensures Sized() && mask == old(mask) && red == old(red)
      ensures fullTww == old(fullTww) && sq == old(sq)
      ensures adj == old(adj)[u := old(adj)[u] + {v}][v := old(adj)[v] + {u}]
      ensures old(Valid()) && u in mask && v in mask && u != v && v !in red[u] ==> Valid()
    {
      adj := adj[u := adj[u] + {v}];
      adj := adj[v := adj[v] + {u}];
    }

    /** `erase_edge(u, v, red)`: removes the edge from both rows of one colour. */
    method EraseEdge(u: int, v: int, isRed: bool)
      requires Sized() && 0 <= u < n && 0 <= v < n && u != v
      modifies this
      ensures Sized() && mask == old(mask)
      ensures fullTww == old(fullTww) && sq == old(sq)
      ensures isRed ==> adj == old(adj) && red == old(red)[u := old(red)[u] - {v}][v := old(red)[v] - {u}]
      ensures !isRed ==> red == old(red) && adj == old(adj)[u := old(adj)[u] - {v}][v := old(adj)[v] - {u}]
    {
      if isRed {
        red := red[u := red[u] - {v}];
        red := red[v := red[v] - {u}];
      } else {
        adj := adj[u := adj[u] - {v}];
        adj := adj[v := adj[v] - {u}];
      }
    }

    /**
     * `erase(u)`: every vertex in a row of `u` forgets `u`, then `u` leaves
     * the mask. The rows of `u` list other vertices only, so the rows
     * being walked are never the rows being changed.
     */
    method Erase(u: int)
      requires Sized() && 0 <= u < n
      requires forall x :: x in adj[u] ==> 0 <= x < n && x != u
      requires forall x :: x in red[u] ==> 0 <= x < n && x != u
      modifies this
      ensures Sized() && State() == Erased(old(State()), u)
      ensures fullTww == old(fullTww) && sq == old(sq)
    {
      ghost var e := Erased(State(), u);
      var a := ForgetIn(adj, u);
      var r := ForgetIn(red, u);
      assert a == e.adj && r == e.red;
      adj, red, mask := a, r, mask - {u};
    }

    /**
     * `update width` in `merge`: `full_tww` raised to the red degree of `u`
     * and of each of its red neighbours.
     */
    method RaiseWidth(u: int)
      requires Sized() && 0 <= u < n && forall x :: x in red[u] ==> 0 <= x < n
      modifies this
      ensures State() == old(State()) && sq == old(sq)
      ensures IsMaxRedDeg(fullTww, Max(old(fullTww), |red[u]|), red, red[u])
    {
      var f := Max(fullTww, RedDeg(u));
      var todo := red[u];
      while todo != {}
        invariant unchanged(this) && todo <= red[u]
        invariant IsMaxRedDeg(f, Max(fullTww, |red[u]|), red, red[u] - todo)
        decreases |todo|
      {
        Nonempty(todo);
        var w :| w in todo;
        f := Max(f, RedDeg(w));
        todo := todo - {w};
      }
      fullTww := f;
    }

    /**
     * The loop of `merge` over the new red row of `u`: each vertex in it
     * gets `u` as a red neighbour and loses it as a black one.
     */
    method RedirectToward(u: int)
      requires Sized() && 0 <= u < n && u !in red[u]
      requires forall x :: x in red[u] ==> 0 <= x < n
      modifies this
      ensures Sized() && mask == old(mask) && fullTww == old(fullTww) && sq == old(sq)
      ensures forall x :: 0 <= x < n ==>
        adj[x] == (if x in old(red[u]) then old(adj[x]) - {u} else old(adj[x])) &&
        red[x] == (if x in old(red[u]) then old(red[x]) + {u} else old(red[x]))
    {
      var hint := red[u];
      var a, r := adj, red;
      var todo := hint;
      while todo != {}
        invariant unchanged(this) && todo <= hint && |a| == n && |r| == n
        invariant forall x :: 0 <= x < n ==>
          a[x] == (if x in hint - todo then adj[x] - {u} else adj[x]) &&
          r[x] == (if x in hint - todo then red[x] + {u} else red[x])
        decreases |todo|
      {
        Nonempty(todo);
        var w :| w in todo;
        r := r[w := r[w] + {u}];
        a := a[w := a[w] - {u}];
        todo := todo - {w};
      }
      adj, red := a, r;
    }

    /**
     * The row updates shared by `merge` and `merge_nohint`, once the red
     * row of `u` holds `hint`: the common black neighbours for `u`, the
     * redirection loop and `erase(v)`.
     */
    method FinishRows(u: int, v: int, ghost g0: Shape)
      requires Sized() && WellFormed(g0) && u in g0.mask && v in g0.mask && u != v
      requires |g0.adj| == n && mask == g0.mask
      requires adj == g0.adj[u := g0.adj[u] - {v}][v := g0.adj[v] - {u}]
      requires red == g0.red[u := Trigraph.MergeCost(g0, u, v)][v := g0.red[v] - {u}]
      modifies this
      ensures Sized() && State() == Merged(g0, u, v)
      ensures fullTww == old(fullTww) && sq == old(sq)
    {
      var common := SetAnd(adj[u], adj[v]);
      adj := adj[u := common];
      RedirectToward(u);
      Erase(v);
      var m := Merged(g0, u, v);
      assert adj == m.adj;
      assert red == m.red;
    }

    /**
     * `merge(u, v, hint)` with `hint = merge_cost(u, v)`, the only hint
     * any caller passes: the rows and mask become `Merged`, `full_tww`
     * rises to the red degrees of `u` and of its red neighbours, and the
     * log is left alone.
     */
    method Merge(u: int, v: int, hint: set<int>)
      requires Valid() && u in mask && v in mask && u != v
      requires hint == Trigraph.MergeCost(State(), u, v)
      modifies this
      ensures Valid() && State() == Merged(old(State()), u, v)
      ensures IsMaxRedDeg(fullTww, Max(old(fullTww), |red[u]|), red, red[u])
      ensures sq == old(sq)
    {
      ghost var g0 := State();
      EraseEdge(u, v, false);
      EraseEdge(u, v, true);
      MergeWith(u, v, hint, g0);
    }

    /**
     * `merge` once the edges between `u` and `v` are gone: the red row of
     * `u` becomes `hint`, the rows are finished, and `full_tww` is raised.
     */
    method MergeWith(u: int, v: int, hint: set<int>, ghost g0: Shape)
      requires Sized() && WellFormed(g0) && u in g0.mask && v in g0.mask && u != v
      requires |g0.adj| == n && mask == g0.mask && hint == Trigraph.MergeCost(g0, u, v)
      requires adj == g0.adj[u := g0.adj[u] - {v}][v := g0.adj[v] - {u}]
      requires red == g0.red[u := g0.red[u] - {v}][v := g0.red[v] - {u}]
      modifies this
      ensures Valid() && State() == Merged(g0, u, v)
      ensures IsMaxRedDeg(fullTww, Max(old(fullTww), |red[u]|), red, red[u])
      ensures sq == old(sq)
    {
      MergedWellFormed(g0, u, v);
      red := red[u := hint];
      FinishRows(u, v, g0);
      RaiseWidth(u);
    }

    /**
     * `merge_nohint(u, v)`: the red row of `u` is computed from the rows
     * left once the edges between `u` and `v` are gone, which is
     * `merge_cost(u, v)`; the merge is then the one of `merge`, and
     * `(u, v)` is appended to the log.
     */
    method MergeNoHint(u: int, v: int)
      requires Valid() && u in mask && v in mask && u != v
      modifies this
      ensures Valid() && State() == Merged(old(State()), u, v)
      ensures IsMaxRedDeg(fullTww, Max(old(fullTww), |red[u]|), red, red[u])
      ensures sq == old(sq) + [(u, v)]
    {
      ghost var g0 := State();
      EraseEdge(u, v, false);
      EraseEdge(u, v, true);
      var hint := RowsUnion(u, v);
      CostAfterErase(g0, u, v);
      // The log is only read by `sol()`, so appending before the row
      // updates instead of after them is the same.
      sq := sq + [(u, v)];
      MergeWith(u, v, hint, g0);
    }

    /** `red_adj[u] | red_adj[v] | (adj[u] ^ adj[v])`, as `merge_nohint` computes it. */
    method RowsUnion(u: int, v: int) returns (h: set<int>)
      requires Sized() && 0 <= u < n && 0 <= v < n
      ensures h == red[u] + red[v] + ((adj[u] - adj[v]) + (adj[v] - adj[u]))
    {
      var reds := SetOr(red[u], red[v]);
      var diff := SetXor(adj[u], adj[v]);
      h := SetOr(reds, diff);
    }

    /**
     * `subgraph(vx)`: numbers the vertices of `vx` 0, 1, ... in the order
     * the loop visits them and builds the dense copy of `vx` under that
     * numbering.
     */
    method Subgraph(vx: set<int>) returns (res: BitGraphs.BitGraph, mInv: seq<int>, ghost m: seq<int>)
      requires Valid() && vx <= mask && |vx| <= LongBitsets.MAX_SIZE
      ensures Numbering(vx, mInv, m) && |mInv| == n
      ensures fresh(res) && DenseCopy(res, vx, mInv, m)
    {
      mInv, m := Numbered(vx);
      res := DenseSubgraph(vx, mInv, m);
    }

    /** The numbering loop of `subgraph`: `m_inv[u]` is the count of vertices numbered before `u`. */
    method Numbered(vx: set<int>) returns (mInv: seq<int>, ghost m: seq<int>)
      requires Valid() && vx <= mask
      ensures Numbering(vx, mInv, m) && |mInv| == n
    {
      mInv := seq(n, _ => 0);
      m := [];
      var i := 0;
      var todo := vx;
      while todo != {}
        invariant todo <= vx && |mInv| == n && i == |m|
        invariant Numbering(vx - todo, mInv, m)
        decreases |todo|
      {
        Nonempty(todo);
        var u :| u in todo;
        NumberOne(vx - todo, mInv, m, u);
        mInv := mInv[u := i];
        m := m + [u];
        i := i + 1;
        assert vx - (todo - {u}) == (vx - todo) + {u};
        todo := todo - {u};
      }
      assert vx - todo == vx;
    }

    /**
     * `dense_subgraph(vx, m_inv)`: a `BitGraph` on |vx| vertices with
     * `past_tww = full_tww`, holding an edge `(m_inv[a], m_inv[b])` of
     * a colour exactly when `a` and `b` of `vx` are joined in that colour,
     * followed by `compute_width()`.
     */
    method DenseSubgraph(vx: set<int>, mInv: seq<int>, ghost m: seq<int>) returns (res: BitGraphs.BitGraph)
      requires Valid() && vx <= mask && |vx| <= LongBitsets.MAX_SIZE
      requires Numbering(vx, mInv, m)
      ensures fresh(res) && DenseCopy(res, vx, mInv, m)
    {
      res := StartCopy(vx, m);
      CopyAll(res, vx, mInv, m);
      FinishDense(res, vx, mInv, m);
    }

    /**
     * The result of `dense_subgraph(vx, m_inv)`: a valid `BitGraph` on
     * |vx| vertices, keyed by number, joining `i` and `j` in a colour
     * exactly when the vertices `m[i]` and `m[j]` are joined in it here
     * (equivalently `m_inv[a]` and `m_inv[b]` when `a`, `b` are), with its
     * red degree computed and the width carried over.
     */
    ghost predicate DenseCopy(res: BitGraphs.BitGraph, vx: set<int>, mInv: seq<int>, m: seq<int>)
      reads this, res
      requires Valid() && vx <= mask && Numbering(vx, mInv, m)
    {
      && res.Valid() && res.n == |vx|
      && (forall i :: i in res.mask <==> 0 <= i < |vx|)
      && (forall i :: 0 <= i < |vx| ==> res.key[i] == BitGraphs.CharOf(i))
      && (forall i, j :: 0 <= i < |vx| && 0 <= j < |vx| ==>
           (j in res.adj[i] <==> m[j] in adj[m[i]]) && (j in res.red[i] <==> m[j] in red[m[i]]))
      && (forall a, b :: a in vx && b in vx ==>
           (mInv[b] in res.adj[mInv[a]] <==> b in adj[a]) && (mInv[b] in res.red[mInv[a]] <==> b in red[a]))
      && IsMaxRedDeg(res.curTww, 0, res.red, res.mask) && res.fullTww == Max(fullTww, res.curTww)
    }

    /**
     * The state of `dense_subgraph`'s copy once the vertices of `done` are
     * copied: the fresh `BitGraph` on |vx| vertices holds exactly the
     * edges of this graph that touch `done`, renumbered.
     */
    ghost predicate Copying(res: BitGraphs.BitGraph, vx: set<int>, m: seq<int>, done: set<int>)
      reads this, res
    {
      && res.Sized() && res.n == |vx| && res.fullTww == fullTww && res.curTww == 0
      && (forall i :: i in res.mask <==> 0 <= i < |vx|)
      && BitGraphs.KeysDistinct(res.key, res.mask)
      && (forall i :: 0 <= i < |vx| ==> res.key[i] == BitGraphs.CharOf(i))
      && CopiedRows(res.adj, adj, m, done) && CopiedRows(res.red, red, m, done)
    }

    /** The start of `dense_subgraph`: an edgeless `BitGraph` on |vx| vertices. */
    method StartCopy(vx: set<int>, ghost m: seq<int>) returns (res: BitGraphs.BitGraph)
      requires Valid() && |vx| <= LongBitsets.MAX_SIZE
      requires |m| == |vx| && forall i :: 0 <= i < |m| ==> m[i] in mask
      ensures fresh(res) && Copying(res, vx, m, {})
    {
      res := new BitGraphs.BitGraph(|vx|, fullTww);
      assert forall i :: 0 <= i < |m| ==> 0 <= m[i] < |adj|;
    }

    /** The outer loop of `dense_subgraph`: every vertex of `vx` in turn. */
    method CopyAll(res: BitGraphs.BitGraph, vx: set<int>, mInv: seq<int>, ghost m: seq<int>)
      requires Valid() && vx <= mask && Numbering(vx, mInv, m) && Copying(res, vx, m, {})
      modifies res
      ensures Copying(res, vx, m, vx)
    {
      ghost var done: set<int> := {};
      var todo := vx;
      while todo != {}
        invariant todo <= vx && done == vx - todo
        invariant Copying(res, vx, m, done)
        decreases |todo|
      {
        Nonempty(todo);
        var u :| u in todo;
        CopyVertex(res, vx, mInv, m, done, u);
        done := done + {u};
        todo := todo - {u};
      }
    }

    /** One pass of `dense_subgraph`'s outer loop: the rows of `u`, black then red. */
    method CopyVertex(res: BitGraphs.BitGraph, vx: set<int>, mInv: seq<int>, ghost m: seq<int>,
                      ghost done: set<int>, u: int)
      requires Valid() && vx <= mask && Numbering(vx, mInv, m)
      requires u in vx && u !in done && done <= vx && Copying(res, vx, m, done)
      modifies res
      ensures Copying(res, vx, m, done + {u})
    {
      CopyRow(res, vx, mInv, m, done, u, false);
      CopyRow(res, vx, mInv, m, done, u, true);
    }

    /** The end of `dense_subgraph`: the copy is complete, then `compute_width()`. */
    method FinishDense(res: BitGraphs.BitGraph, vx: set<int>, mInv: seq<int>, ghost m: seq<int>)
      requires Valid() && vx <= mask && |vx| <= LongBitsets.MAX_SIZE
      requires Numbering(vx, mInv, m) && Copying(res, vx, m, vx)
      modifies res
      ensures DenseCopy(res, vx, mInv, m)
    {
      assert res.mask == Below(|vx|);
      CopiedWellFormed(State(), vx, mInv, m, res.adj, res.red);
      assert res.Valid();
      res.ComputeWidth();
      MirrorByNumbering(res.adj, adj, vx, mInv, m);
      MirrorByNumbering(res.red, red, vx, mInv, m);
    }

    /**
     * One row of `dense_subgraph`'s loop: every neighbour `v` of `u` in one
     * colour that is in `vx` gets the edge `(m_inv[u], m_inv[v])` in `res`.
     */
    method CopyRow(res: BitGraphs.BitGraph, vx: set<int>, mInv: seq<int>, ghost m: seq<int>,
                   ghost done: set<int>, u: int, isRed: bool)
      requires Valid() && vx <= mask && Numbering(vx, mInv, m)
      requires res.Sized() && res.n == |m|
      requires u in vx && u !in done && done <= vx
      requires CopiedRows(Rows(res.State(), isRed), Rows(State(), isRed), m, done)
      modifies res
      ensures res.Sized() && res.mask == old(res.mask) && res.key == old(res.key)
      ensures res.fullTww == old(res.fullTww) && res.curTww == old(res.curTww)
      ensures Rows(res.State(), !isRed) == old(Rows(res.State(), !isRed))
      ensures CopiedRows(Rows(res.State(), isRed), Rows(State(), isRed), m, done + {u})
    {
      var src := Rows(State(), isRed);
      var row := src[u];
      var todo := row;
      assert row - todo == {};
      while todo != {}
        invariant todo <= row
        invariant res.Sized() && res.n == |m| && res.mask == old(res.mask) && res.key == old(res.key)
        invariant res.fullTww == old(res.fullTww) && res.curTww == old(res.curTww)
        invariant Rows(res.State(), !isRed) == old(Rows(res.State(), !isRed))
        invariant PartRows(Rows(res.State(), isRed), src, m, done, u, row - todo)
        decreases |todo|
      {
        Nonempty(todo);
        var v :| v in todo;
        ghost var rows := Rows(res.State(), isRed);
        if v in vx {
          assert v != u && u in src[v] && m[mInv[u]] == u && m[mInv[v]] == v;
          res.AddEdge(mInv[u], mInv[v], isRed);
        }
        CopyEdge(rows, Rows(res.State(), isRed), src, vx, mInv, m, done, u, row - todo, v);
        assert (row - todo) + {v} == row - (todo - {v});
        todo := todo - {v};
      }
      forall i | 0 <= i < |m|
        ensures u in src[m[i]] <==> m[i] in row
      {
        assert m[i] in vx;
      }
      EndRow(Rows(res.State(), isRed), src, m, done, u);
    }

    /**
     * `largest_cc_size()`: the size of the largest connected component
     * over black and red edges, and 0 when no vertex is active.
     */
    method LargestCcSize() returns (r: int)
      requires Valid()
      ensures forall c :: Component(State(), c) ==> |c| <= r
      ensures mask == {} ==> r == 0
      ensures mask != {} ==> exists c :: Component(State(), c) && |c| == r
    {
      var g := State();
      var visited := seq(n, _ => false);
      ghost var seen: set<int> := {};
      ghost var compOf: map<int, set<int>> := map[];
      ghost var best: set<int> := {};
      r := 0;
      var todo := mask;
      while todo != {}
        invariant todo <= mask && mask - todo <= seen
        invariant |visited| == n && forall x :: 0 <= x < n ==> (visited[x] <==> x in seen)
        invariant Closed(g, seen) && Found(g, seen, compOf, r)
        invariant (seen == {} && r == 0) || (Component(g, best) && |best| == r)
        decreases |todo|
      {
        Nonempty(todo);
        var u :| u in todo;
        todo := todo - {u};
        if !visited[u] {
          var cur;
          ghost var comp;
          visited, cur, comp := Explore(u, visited, seen);
          FoundMore(g, seen, compOf, r, comp, Max(r, cur));
          compOf := compOf + map x | x in comp :: comp;
          if r < cur {
            best := comp;
          }
          r := Max(r, cur);
          seen := seen + comp;
        }
      }
      forall c | Component(g, c)
        ensures |c| <= r
      {
        Nonempty(c);
        var x :| x in c;
        ComponentsMeet(g, c, compOf[x], x);
      }
      if mask != {} {
        Nonempty(mask);
        var x :| x in mask;
        assert x in seen;
      }
    }

    /**
     * One depth-first search of `largest_cc_size` from the unvisited
     * vertex `u`: marks and counts exactly the component of `u`.
     */
    method Explore(u: int, visited: seq<bool>, ghost seen: set<int>) returns (visited': seq<bool>, cur: int, ghost comp: set<int>)
      requires Valid() && u in mask && u !in seen && Closed(State(), seen)
      requires |visited| == n && forall x :: 0 <= x < n ==> (visited[x] <==> x in seen)
      ensures |visited'| == n && forall x :: 0 <= x < n ==> (visited'[x] <==> x in seen + comp)
      ensures comp * seen == {} && u in comp && Component(State(), comp) && cur == |comp|
      ensures Closed(State(), seen + comp)
    {
      var g := State();
      visited' := visited[u := true];
      var stack := [u];
      ghost var vis := seen + {u};
      ghost var done: set<int> := {};
      cur := 0;
      DfsStart(g, u, seen, visited, visited');
      while stack != []
        invariant Dfs(g, u, seen, visited', stack, vis, done, cur)
        decreases |mask - vis| + |stack|
      {
        visited', stack, vis, done, cur := DfsStep(g, u, seen, visited', stack, vis, done, cur);
      }
      DfsFinish(g, u, seen, visited', vis, done, cur);
      comp := vis - seen;
      assert seen + comp == vis;
    }
  }

  /**
   * The state of the search from `u` in `largest_cc_size`: `vis` holds
   * the vertices visited, `seen` those of earlier searches; the vertices
   * reached from `u` are either popped and counted (`done`) or on the
   * stack once; the neighbours of popped vertices are all visited; and
   * every closed set that contains `u` contains all reached vertices.
   */
  ghost predicate Dfs(g: Shape, u: int, seen: set<int>, visited: seq<bool>, stack: seq<int>,
                      vis: set<int>, done: set<int>, cur: int)
  {
    && DfsMarks(g, u, seen, visited, vis)
    && DfsStack(seen, stack, vis, done, cur)
    && DfsReach(g, u, seen, vis, done)
  }

  /** `visited` marks exactly `vis`, which holds `u` and the earlier searches. */
  ghost predicate DfsMarks(g: Shape, u: int, seen: set<int>, visited: seq<bool>, vis: set<int>)
  {
    && |visited| == |g.adj| == |g.red|
    && (forall x :: 0 <= x < |visited| ==> (visited[x] <==> x in vis))
    && seen <= vis <= g.mask && u in vis
  }

  /** Each vertex reached is counted or on the stack, never both, and on it once. */
  ghost predicate DfsStack(seen: set<int>, stack: seq<int>, vis: set<int>, done: set<int>, cur: int)
  {
    && done <= vis - seen && cur == |done|
    && (forall i :: 0 <= i < |stack| ==> stack[i] in vis - seen - done)
    && (forall i, j :: 0 <= i < j < |stack| ==> stack[i] != stack[j])
    && (forall x :: x in vis - seen ==> x in done || x in stack)
  }

  /** Popped vertices have no unvisited neighbour, and closed sets through `u` hold all reached. */
  ghost predicate DfsReach(g: Shape, u: int, seen: set<int>, vis: set<int>, done: set<int>)
  {
    && (forall x :: x in done ==> 0 <= x < |g.adj| && 0 <= x < |g.red| && g.adj[x] + g.red[x] <= vis)
    && (forall s :: Closed(g, s) && u in s ==> vis - seen <= s)
  }

  /**
   * Every vertex of `seen` lies in the component `compOf` gives it, of
   * size at most `r`.
   */
  ghost predicate Found(g: Shape, seen: set<int>, compOf: map<int, set<int>>, r: int)
  {
    forall x :: x in seen ==> x in compOf && Component(g, compOf[x]) && x in compOf[x] && |compOf[x]| <= r
  }

  /** Recording a new component, disjoint from those found, keeps `Found`. */
  lemma FoundMore(g: Shape, seen: set<int>, compOf: map<int, set<int>>, r: int, comp: set<int>, r': int)
    requires Found(g, seen, compOf, r) && Component(g, comp) && comp * seen == {}
    requires r <= r' && |comp| <= r'
    ensures Found(g, seen + comp, compOf + map x | x in comp :: comp, r')
  {
    var compOf' := compOf + map x | x in comp :: comp;
    forall x | x in seen + comp
      ensures x in compOf' && Component(g, compOf'[x]) && x in compOf'[x] && |compOf'[x]| <= r'
    {
      if x in comp {
        assert compOf'[x] == comp;
      } else {
        assert compOf'[x] == compOf[x];
      }
    }
  }

  /** The search from the unvisited `u` starts with `u` marked and on the stack. */
  lemma DfsStart(g: Shape, u: int, seen: set<int>, visited: seq<bool>, visited': seq<bool>)
    requires WellFormed(g) && u in g.mask && u !in seen && Closed(g, seen)
    requires |visited| == |g.adj| && forall x :: 0 <= x < |visited| ==> (visited[x] <==> x in seen)
    requires visited' == visited[u := true]
    ensures Dfs(g, u, seen, visited', [u], seen + {u}, {}, 0)
  {
    assert (seen + {u}) - seen == {u};
  }

  /**
   * When the stack is empty, the vertices reached from `u` are closed
   * (the earlier searches are closed and, edges being symmetric, no edge
   * joins them to a new vertex) and lie in every closed set through `u`:
   * they are the component of `u`, and the count is its size.
   */
  lemma DfsFinish(g: Shape, u: int, seen: set<int>, visited: seq<bool>, vis: set<int>, done: set<int>, cur: int)
    requires WellFormed(g) && u !in seen && Closed(g, seen)
    requires Dfs(g, u, seen, visited, [], vis, done, cur)
    ensures Component(g, vis - seen) && cur == |vis - seen| && Closed(g, vis)
  {
    var comp := vis - seen;
    forall x | x in comp
      ensures x in done
    {
      assert x in done || x in [];
    }
    assert done == comp;
    ReachedClosed(g, seen, comp);
    LeastClosedIsComponent(g, comp, u);
  }

  /**
   * Vertices outside a closed set `seen` whose neighbours all lie in
   * `seen` or among themselves form a closed set, and so does the union.
   */
  lemma ReachedClosed(g: Shape, seen: set<int>, comp: set<int>)
    requires WellFormed(g) && Closed(g, seen) && comp <= g.mask
    requires forall x :: x in comp ==> x !in seen && g.adj[x] + g.red[x] <= seen + comp
    ensures Closed(g, comp) && Closed(g, seen + comp)
  {
    forall x | x in comp
      ensures g.adj[x] + g.red[x] <= comp
    {
      OutsideClosed(g, seen, x);
    }
  }

  /**
   * One round of the search loop of `largest_cc_size`: pop a vertex,
   * count it, and push its unvisited neighbours of either colour.
   */
  method DfsStep(g: Shape, u: int, ghost seen: set<int>, visited: seq<bool>, stack: seq<int>,
                 ghost vis: set<int>, ghost done: set<int>, cur: int)
    returns (visited': seq<bool>, stack': seq<int>, ghost vis': set<int>, ghost done': set<int>, cur': int)
    requires WellFormed(g) && Dfs(g, u, seen, visited, stack, vis, done, cur) && stack != []
    ensures Dfs(g, u, seen, visited', stack', vis', done', cur')
    ensures |g.mask - vis'| + |stack'| < |g.mask - vis| + |stack|
  {
    var v := stack[|stack| - 1];
    cur' := cur + 1;
    done' := done + {v};
    var nb := SetOr(g.adj[v], g.red[v]);
    var pushed;
    visited', pushed, vis' := PushUnseen(nb, visited, vis);
    stack' := stack[..|stack| - 1] + pushed;
    StepMarks(g, u, seen, visited, vis, v, nb, visited', pushed, vis');
    StepStack(seen, stack, vis, done, cur, nb, visited, visited', pushed, vis');
    StepReach(g, u, seen, vis, done, v, nb, vis');
  }

  /** A round keeps the marks right and shrinks the work left. */
  lemma StepMarks(g: Shape, u: int, seen: set<int>, visited: seq<bool>, vis: set<int>, v: int,
                  nb: set<int>, visited': seq<bool>, pushed: seq<int>, vis': set<int>)
    requires WellFormed(g) && DfsMarks(g, u, seen, visited, vis) && v in vis
    requires nb == g.adj[v] + g.red[v] && Pushed(nb, {}, visited, vis, visited', pushed, vis')
    ensures DfsMarks(g, u, seen, visited', vis')
    ensures |g.mask - vis'| == |g.mask - vis| - |pushed|
  {
    assert g.mask - vis' == (g.mask - vis) - (nb - vis);
    SubsetCard(g.mask - vis, nb - vis);
  }

  /** A round pops one vertex into `done` and pushes the newly reached ones. */
  lemma StepStack(seen: set<int>, stack: seq<int>, vis: set<int>, done: set<int>, cur: int,
                  nb: set<int>, visited: seq<bool>, visited': seq<bool>, pushed: seq<int>, vis': set<int>)
    requires DfsStack(seen, stack, vis, done, cur) && stack != [] && seen <= vis
    requires Pushed(nb, {}, visited, vis, visited', pushed, vis')
    ensures DfsStack(seen, stack[..|stack| - 1] + pushed, vis', done + {stack[|stack| - 1]}, cur + 1)
  {
    var v, rest := stack[|stack| - 1], stack[..|stack| - 1];
    var stack' := rest + pushed;
    forall i | 0 <= i < |stack'|
      ensures stack'[i] in vis' - seen - (done + {v})
    {
      if i < |rest| {
        assert stack'[i] == stack[i];
      }
    }
    forall i, j | 0 <= i < j < |stack'|
      ensures stack'[i] != stack'[j]
    {
      if j < |rest| {
        assert stack'[i] == stack[i] && stack'[j] == stack[j];
      } else if i < |rest| {
        assert stack'[i] == stack[i] && stack'[j] == pushed[j - |rest|];
      }
    }
    forall x | x in vis' - seen
      ensures x in done + {v} || x in stack'
    {
      if x in vis && x !in done && x != v {
        var k :| 0 <= k < |stack| && stack[k] == x;
        assert stack'[k] == x;
      }
    }
  }

  /** A round visits every neighbour of the popped vertex, which every closed set through `u` holds. */
  lemma StepReach(g: Shape, u: int, seen: set<int>, vis: set<int>, done: set<int>, v: int, nb: set<int>, vis': set<int>)
    requires WellFormed(g) && DfsReach(g, u, seen, vis, done) && v in vis - seen && vis <= g.mask
    requires nb == g.adj[v] + g.red[v] && vis' == vis + nb
    ensures DfsReach(g, u, seen, vis', done + {v})
  {
    forall s | Closed(g, s) && u in s
      ensures vis' - seen <= s
    {
      assert v in s;
    }
  }

  /** Removing a subset removes its number of elements. */
  lemma SubsetCard(a: set<int>, b: set<int>)
    requires b <= a
    ensures |a - b| == |a| - |b|
  {
    assert a == (a - b) + b;
  }

  /**
   * The state of the inner loop of `largest_cc_size` once the neighbours
   * in `nb - todo` have been looked at: they are all visited, and those
   * not visited before were pushed, once each.
   */
  ghost predicate Pushed(nb: set<int>, todo: set<int>, visited: seq<bool>, vis: set<int>,
                         visited': seq<bool>, pushed: seq<int>, vis': set<int>)
  {
    && todo <= nb && vis' == vis + (nb - todo)
    && |visited'| == |visited| && (forall x :: 0 <= x < |visited| ==> (visited'[x] <==> x in vis'))
    && |pushed| == |(nb - todo) - vis|
    && (forall i :: 0 <= i < |pushed| ==> pushed[i] in (nb - todo) - vis)
    && (forall i, j :: 0 <= i < j < |pushed| ==> pushed[i] != pushed[j])
    && (forall x :: x in (nb - todo) - vis ==> x in pushed)
  }

  /**
   * The inner loop of `largest_cc_size` over the neighbours `nb` of the
   * vertex just popped: each one not yet visited is marked and pushed,
   * once; `pushed` lists them in push order.
   */
  method PushUnseen(nb: set<int>, visited: seq<bool>, ghost vis: set<int>)
    returns (visited': seq<bool>, pushed: seq<int>, ghost vis': set<int>)
    requires forall x :: x in nb ==> 0 <= x < |visited|
    requires forall x :: 0 <= x < |visited| ==> (visited[x] <==> x in vis)
    ensures Pushed(nb, {}, visited, vis, visited', pushed, vis')
  {
    visited', pushed, vis' := visited, [], vis;
    var todo := nb;
    while todo != {}
      invariant Pushed(nb, todo, visited, vis, visited', pushed, vis')
      decreases |todo|
    {
      Nonempty(todo);
      var w :| w in todo;
      visited', pushed, vis' := PushOne(nb, todo, w, visited, vis, visited', pushed, vis');
      todo := todo - {w};
    }
  }

  /** One step of `PushUnseen`: look at the neighbour `w`. */
  method PushOne(nb: set<int>, ghost todo: set<int>, w: int, ghost visited: seq<bool>, ghost vis: set<int>,
                 visited': seq<bool>, pushed: seq<int>, ghost vis': set<int>)
    returns (visited'': seq<bool>, pushed': seq<int>, ghost vis'': set<int>)
    requires forall x :: x in nb ==> 0 <= x < |visited|
    requires Pushed(nb, todo, visited, vis, visited', pushed, vis') && w in todo
    ensures Pushed(nb, todo - {w}, visited, vis, visited'', pushed', vis'')
  {
    ghost var before := (nb - todo) - vis;
    if !visited'[w] {
      visited'', pushed' := visited'[w := true], pushed + [w];
      assert w !in before && before + {w} == (nb - (todo - {w})) - vis;
    } else {
      visited'', pushed' := visited', pushed;
      assert before == (nb - (todo - {w})) - vis;
    }
    vis'' := vis' + {w};
  }

  /** The loop of `erase(u)` over one row of `u`: each vertex listed there forgets `u`. */
  method ForgetIn(rows: seq<set<int>>, u: int) returns (r: seq<set<int>>)
    requires 0 <= u < |rows| && forall x :: x in rows[u] ==> 0 <= x < |rows| && x != u
    ensures |r| == |rows|
    ensures forall w :: 0 <= w < |rows| ==> r[w] == (if w in rows[u] then rows[w] - {u} else rows[w])
  {
    r := rows;
    var todo := rows[u];
    while todo != {}
      invariant todo <= rows[u] && |r| == |rows|
      invariant forall w :: 0 <= w < |rows| ==> r[w] == (if w in rows[u] - todo then rows[w] - {u} else rows[w])
      decreases |todo|
    {
      Nonempty(todo);
      var w :| w in todo;
      r := r[w := r[w] - {u}];
      todo := todo - {w};
    }
  }
}
