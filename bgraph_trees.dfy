/**
 * Tree reduction (`reduce_trees`) and the two heuristic kernels built on
 * it (`kernelize_tww_gt2`, `kernelize_heur`).
 *
 * The reduction first hangs vertices into a forest: starting from the
 * vertices of total degree one, a vertex all of whose neighbours but one
 * are already its children takes that last free neighbour as its parent,
 * and the parent is examined in the next round. Then every tree is folded
 * from the leaves up: all children of a vertex are merged into its first
 * child and all grandchildren into the first grandchild, and below the
 * root the grandchild is merged into the child as well.
 *
 * The forest is proved acyclic with a ghost rank that strictly grows from
 * a child to its parent (the round counter at which the child was hung,
 * and one more than every such counter for roots). On it rests the proof
 * that every merge joins two distinct active vertices: the merges made
 * under a vertex only remove its descendants, and the subtrees of two
 * siblings are disjoint.
 */
module BitTrees {
  import opened Common
  import opened BitGraphs
  import Trigraph
  import BitPaths

  /** Which vertices already have a parent. */
  function HasParent(parent: seq<int>): (r: seq<bool>)
    ensures |r| == |parent| && forall x :: 0 <= x < |parent| ==> r[x] == (parent[x] != -1)
  {
    seq(|parent|, x requires 0 <= x < |parent| => parent[x] != -1)
  }

  /**
   * The `parent` and `children` vectors agree: `children[v]` lists, each
   * once, exactly the vertices whose parent is `v` (`cpos[x]` is the
   * place of `x` in its parent's list), and only vertices of `m` are hung
   * under vertices of `m`.
   */
  ghost predicate Parents(n: int, m: set<int>, parent: seq<int>, children: seq<seq<int>>, cpos: seq<int>)
  {
    && |parent| == n && |children| == n && |cpos| == n
    && (forall x :: 0 <= x < n ==> -1 <= parent[x] < n)
    && (forall x :: 0 <= x < n && parent[x] != -1 ==>
          && x in m && parent[x] in m
          && 0 <= cpos[x] < |children[parent[x]]| && children[parent[x]][cpos[x]] == x)
    && (forall v, i :: 0 <= v < n && 0 <= i < |children[v]| ==>
          0 <= children[v][i] < n && parent[children[v][i]] == v && cpos[children[v][i]] == i)
  }

  /** Each vertex's neighbours of either colour. */
  ghost function Rows(g: BitGraph): (r: seq<set<int>>)
    reads g
    requires g.Sized()
    ensures |r| == g.n && forall x :: 0 <= x < g.n ==> r[x] == g.adj[x] + g.red[x]
  {
    var adj, red := g.adj, g.red;
    seq(g.n, x requires 0 <= x < g.n => adj[x] + red[x])
  }

  /** Neighbourhoods of active vertices are active and symmetric. */
  ghost predicate Symmetric(n: int, m: set<int>, nb: seq<set<int>>)
  {
    && |nb| == n
    && (forall x :: x in m ==> 0 <= x < n && x !in nb[x])
    && (forall x, y :: x in m && y in nb[x] ==> y in m && x in nb[y])
  }

  lemma RowsSymmetric(g: BitGraph)
    requires g.Valid()
    ensures Symmetric(g.n, g.mask, Rows(g))
  {
    var nb := Rows(g);
    forall x, y | x in g.mask && y in nb[x]
      ensures y in g.mask && x in nb[y]
    {
      assert y in g.adj[x] || y in g.red[x];
    }
  }

  /**
   * While the forest is built: a vertex hangs under one of its
   * neighbours, and was hung (at round `when`) before its parent was.
   */
  ghost predicate BuildInv(n: int, m: set<int>, nb: seq<set<int>>, parent: seq<int>, children: seq<seq<int>>,
                           cpos: seq<int>, when: seq<int>, clock: int)
  {
    && Symmetric(n, m, nb) && Parents(n, m, parent, children, cpos) && |when| == n && clock >= 0
    && (forall x :: 0 <= x < n && parent[x] != -1 ==>
          && parent[x] in nb[x]
          && 0 <= when[x] < clock
          && (parent[parent[x]] == -1 || when[x] < when[parent[x]]))
  }

  /** Ranks grow strictly from child to parent and are bounded by `top`. */
  ghost predicate Ranked(parent: seq<int>, rank: seq<int>, top: int)
  {
    && |rank| == |parent|
    && (forall x :: 0 <= x < |parent| ==> -1 <= parent[x] < |parent| && 0 <= rank[x] <= top)
    && (forall x :: 0 <= x < |parent| && parent[x] != -1 ==> rank[x] < rank[parent[x]])
  }

  /** The finished forest over the active vertices `m`. */
  ghost predicate Forest(n: int, m: set<int>, parent: seq<int>, children: seq<seq<int>>, cpos: seq<int>,
                         rank: seq<int>, top: int)
  {
    Parents(n, m, parent, children, cpos) && Ranked(parent, rank, top)
  }

  /** The distinct entries of a list are as many as the list is long. */
  lemma {:induction false} DistinctCard(s: seq<int>)
    requires forall i, j :: 0 <= i < j < |s| ==> s[i] != s[j]
    ensures |(set x | x in s)| == |s|
  {
    if s != [] {
      var t := s[..|s| - 1];
      DistinctCard(t);
      assert (set x | x in s) == (set x | x in t) + {s[|s| - 1]};
    }
  }

  /**
   * When every neighbour of `u` but one is a child of `u`, at most one
   * neighbour of `u` is still without a parent. This is why `u` is hung
   * at most once although both rows are scanned.
   */
  lemma OneFreeNeighbour(n: int, m: set<int>, nb: seq<set<int>>, parent: seq<int>, children: seq<seq<int>>,
                         cpos: seq<int>, when: seq<int>, clock: int, u: int, a: int)
    requires BuildInv(n, m, nb, parent, children, cpos, when, clock)
    requires u in m && |nb[u]| == |children[u]| + 1
    requires a in nb[u] && 0 <= a < n && parent[a] == -1
    ensures forall b :: b in nb[u] && 0 <= b < n && parent[b] == -1 ==> b == a
  {
    var ch := children[u];
    var c := set x | x in ch;
    forall i, j | 0 <= i < j < |ch|
      ensures ch[i] != ch[j]
    {
      assert cpos[ch[i]] == i && cpos[ch[j]] == j;
    }
    DistinctCard(ch);
    forall x | x in c
      ensures x in nb[u]
    {
      var i :| 0 <= i < |ch| && ch[i] == x;
      assert parent[x] == u && x in m;
    }
    var full := c + {a};
    assert a !in c && |full| == |nb[u]|;
    assert nb[u] == full + (nb[u] - full);
  }

  /** Hanging `u` under `v`: `u` is appended to `v`'s children. */
  method Adopt(ghost n: int, ghost m: set<int>, ghost nb: seq<set<int>>, u: int, v: int,
               parent: seq<int>, children: seq<seq<int>>, ghost cpos: seq<int>,
               q2: seq<int>, ghost when: seq<int>, ghost clock: int)
    returns (parent': seq<int>, children': seq<seq<int>>, ghost cpos': seq<int>,
             q2': seq<int>, ghost when': seq<int>, ghost clock': int)
    requires BuildInv(n, m, nb, parent, children, cpos, when, clock)
    requires u in m && v in nb[u] && 0 <= v < n && parent[u] == -1 && parent[v] == -1
    ensures BuildInv(n, m, nb, parent', children', cpos', when', clock')
    ensures parent' == parent[u := v] && q2' == q2 + [v]
  {
    assert v in m && u != v && 0 <= u < n;
    children' := children[v := children[v] + [u]];
    cpos' := cpos[u := |children[v]|];
    parent' := parent[u := v];
    q2' := q2 + [v];
    when' := when[u := clock];
    clock' := clock + 1;
    forall x | 0 <= x < n && parent'[x] != -1
      ensures parent'[x] in nb[x] && 0 <= when'[x] < clock'
      ensures parent'[parent'[x]] == -1 || when'[x] < when'[parent'[x]]
    {
      if x != u {
        assert parent'[x] == parent[x];
      }
    }
  }

  /**
   * One scan of `row` in ascending order that hangs `u` under the first
   * vertex of `row` without a parent and stops there; if there is none,
   * nothing changes.
   */
  method AttachRow(n: int, ghost m: set<int>, ghost nb: seq<set<int>>, u: int, row: set<int>,
                   parent: seq<int>, children: seq<seq<int>>, ghost cpos: seq<int>,
                   q2: seq<int>, ghost when: seq<int>, ghost clock: int)
    returns (parent': seq<int>, children': seq<seq<int>>, ghost cpos': seq<int>,
             q2': seq<int>, ghost when': seq<int>, ghost clock': int)
    requires BuildInv(n, m, nb, parent, children, cpos, when, clock)
    requires u in m && row <= nb[u]
    requires parent[u] == -1 || forall v :: v in row ==> 0 <= v < n && parent[v] != -1
    ensures BuildInv(n, m, nb, parent', children', cpos', when', clock')
    ensures (forall v :: v in row ==> 0 <= v < n && parent[v] != -1) ==> parent' == parent && q2' == q2
    ensures forall x :: 0 <= x < n && parent[x] != -1 ==> parent'[x] == parent[x]
    ensures (parent' == parent && q2' == q2) || (parent[u] == -1 && 0 <= parent'[u] < n && parent'[u] in row && parent[parent'[u]] == -1
                          && parent' == parent[u := parent'[u]] && q2' == q2 + [parent'[u]])
  {
    parent', children', cpos', q2', when', clock' := parent, children, cpos, q2, when, clock;
    var pick := -1;
    for v := 0 to n
      invariant pick == -1
      invariant forall w :: w in row && 0 <= w < v ==> parent[w] != -1
    {
      if v in row && parent[v] == -1 {
        pick := v;
        break;
      }
    }
    if pick == -1 {
      forall w | w in row
        ensures 0 <= w < n
      {
        assert w in nb[u] && w in m;
      }
    } else {
      parent', children', cpos', q2', when', clock' := Adopt(n, m, nb, u, pick, parent, children, cpos, q2, when, clock);
    }
  }

  /**
   * The body of the build loop for one queued vertex `u`: skip it when it
   * already has a parent or more than one neighbour that is not its
   * child; otherwise scan its black row, then its red row.
   */
  method Attach(g: BitGraph, ghost nb: seq<set<int>>, u: int, parent: seq<int>, children: seq<seq<int>>,
                ghost cpos: seq<int>, q2: seq<int>, ghost when: seq<int>, ghost clock: int)
    returns (parent': seq<int>, children': seq<seq<int>>, ghost cpos': seq<int>,
             q2': seq<int>, ghost when': seq<int>, ghost clock': int)
    requires g.Valid() && nb == Rows(g)
    requires BuildInv(g.n, g.mask, nb, parent, children, cpos, when, clock) && u in g.mask
    ensures BuildInv(g.n, g.mask, nb, parent', children', cpos', when', clock')
    ensures forall x :: 0 <= x < g.n && parent[x] != -1 ==> parent'[x] == parent[x]
    ensures (parent' == parent && q2' == q2) || (parent[u] == -1 && parent'[u] != -1 && q2' == q2 + [parent'[u]])
  {
    ghost var m := g.mask;
    var n := g.n;
    parent', children', cpos', q2', when', clock' := parent, children, cpos, q2, when, clock;
    if parent[u] != -1 || g.TotalDeg(u) != |children[u]| + 1 {
      return;
    }
    parent', children', cpos', q2', when', clock' := AttachRow(n, m, nb, u, g.adj[u], parent', children', cpos', q2', when', clock');
    if parent'[u] != -1 {
      OneFreeNeighbour(n, m, nb, parent, children, cpos, when, clock, u, parent'[u]);
      assert forall v :: v in g.red[u] ==> 0 <= v < n && parent'[v] != -1;
    }
    parent', children', cpos', q2', when', clock' := AttachRow(n, m, nb, u, g.red[u], parent', children', cpos', q2', when', clock');
  }

  /**
   * The first phase of `reduce_trees`: queue the active vertices of total
   * degree one in ascending order, then process the queue in rounds,
   * queueing each new parent for the next round, until a round queues
   * nothing. The result is a forest of active vertices in which every
   * vertex hangs under one of its neighbours.
   */
  method BuildForest(g: BitGraph)
    returns (parent: seq<int>, children: seq<seq<int>>, ghost cpos: seq<int>, ghost rank: seq<int>, ghost top: int)
    requires g.Valid()
    ensures Forest(g.n, g.mask, parent, children, cpos, rank, top)
    ensures forall x :: 0 <= x < g.n && parent[x] != -1 ==> parent[x] in g.adj[x] + g.red[x]
  {
    ghost var nb := Rows(g);
    RowsSymmetric(g);
    parent := seq(g.n, _ => -1);
    children := seq(g.n, _ => []);
    cpos := seq(g.n, _ => 0);
    ghost var when := seq(g.n, _ => 0);
    ghost var clock := 0;
    var q1 := [];
    for u := 0 to g.n
      invariant forall i :: 0 <= i < |q1| ==> q1[i] in g.mask
    {
      if u in g.mask && g.TotalDeg(u) == 1 {
        q1 := q1 + [u];
      }
    }
    while q1 != []
      invariant BuildInv(g.n, g.mask, nb, parent, children, cpos, when, clock)
      invariant forall i :: 0 <= i < |q1| ==> q1[i] in g.mask
      decreases 2 * CountFalse(HasParent(parent)) + (if q1 == [] then 0 else 1)
    {
      parent, children, cpos, q1, when, clock := Round(g, nb, q1, parent, children, cpos, when, clock);
    }
    rank, top := Stamps(parent, when, clock), clock;
    StampsRanked(g.n, g.mask, nb, parent, children, cpos, when, clock);
  }

  /**
   * One pass over the queue `q1`: tries to attach each listed vertex and
   * collects the new parents into the next queue. A nonempty next queue
   * means some vertex gained a parent.
   */
  method Round(g: BitGraph, ghost nb: seq<set<int>>, q1: seq<int>, parent: seq<int>, children: seq<seq<int>>,
               ghost cpos: seq<int>, ghost when: seq<int>, ghost clock: int)
    returns (parent': seq<int>, children': seq<seq<int>>, ghost cpos': seq<int>,
             q2: seq<int>, ghost when': seq<int>, ghost clock': int)
    requires g.Valid() && nb == Rows(g)
    requires BuildInv(g.n, g.mask, nb, parent, children, cpos, when, clock)
    requires forall i :: 0 <= i < |q1| ==> q1[i] in g.mask
    ensures BuildInv(g.n, g.mask, nb, parent', children', cpos', when', clock')
    ensures forall k :: 0 <= k < |q2| ==> q2[k] in g.mask
    ensures CountFalse(HasParent(parent')) <= CountFalse(HasParent(parent))
    ensures q2 != [] ==> CountFalse(HasParent(parent')) < CountFalse(HasParent(parent))
  {
    parent', children', cpos', when', clock' := parent, children, cpos, when, clock;
    q2 := [];
    for i := 0 to |q1|
      invariant BuildInv(g.n, g.mask, nb, parent', children', cpos', when', clock')
      invariant forall k :: 0 <= k < |q2| ==> q2[k] in g.mask
      invariant forall x :: 0 <= x < g.n && parent[x] != -1 ==> parent'[x] != -1
      invariant CountFalse(HasParent(parent')) <= CountFalse(HasParent(parent))
      invariant q2 != [] ==> CountFalse(HasParent(parent')) < CountFalse(HasParent(parent))
    {
      ghost var p1 := parent';
      parent', children', cpos', q2, when', clock' := Attach(g, nb, q1[i], parent', children', cpos', q2, when', clock');
      CountFalseShrinks(HasParent(p1), HasParent(parent'), q1[i]);
    }
  }

  /** The rank of a vertex: its attach time, or the final clock for a root. */
  ghost function Stamps(parent: seq<int>, when: seq<int>, clock: int): (rank: seq<int>)
    requires |when| == |parent|
    ensures |rank| == |parent|
  {
    seq(|parent|, x requires 0 <= x < |parent| => if parent[x] == -1 then clock else when[x])
  }

  /** Attach times rank the finished forest. */
  lemma StampsRanked(n: int, m: set<int>, nb: seq<set<int>>, parent: seq<int>, children: seq<seq<int>>,
                     cpos: seq<int>, when: seq<int>, clock: int)
    requires BuildInv(n, m, nb, parent, children, cpos, when, clock)
    ensures Forest(n, m, parent, children, cpos, Stamps(parent, when, clock), clock)
  {
  }

  /** `a` is a proper ancestor of `x`: following parents from `x` reaches `a`. */
  ghost predicate Anc(parent: seq<int>, rank: seq<int>, top: int, a: int, x: int)
    requires Ranked(parent, rank, top)
    decreases if 0 <= x < |parent| then top - rank[x] else 0
  {
    0 <= x < |parent| && parent[x] != -1 && (parent[x] == a || Anc(parent, rank, top, a, parent[x]))
  }

  /** `x` lies in the subtree of `a`. */
  ghost predicate InSubtree(parent: seq<int>, rank: seq<int>, top: int, a: int, x: int)
    requires Ranked(parent, rank, top)
  {
    x == a || Anc(parent, rank, top, a, x)
  }

  /** An ancestor has a higher rank; in particular no vertex is its own ancestor. */
  lemma {:induction false} AncRank(parent: seq<int>, rank: seq<int>, top: int, a: int, x: int)
    requires Ranked(parent, rank, top) && Anc(parent, rank, top, a, x)
    ensures 0 <= a < |parent| && rank[x] < rank[a]
    decreases top - rank[x]
  {
    if parent[x] != a {
      AncRank(parent, rank, top, a, parent[x]);
    }
  }

  lemma {:induction false} AncTrans(parent: seq<int>, rank: seq<int>, top: int, a: int, b: int, x: int)
    requires Ranked(parent, rank, top) && Anc(parent, rank, top, a, b) && Anc(parent, rank, top, b, x)
    ensures Anc(parent, rank, top, a, x)
    decreases top - rank[x]
  {
    if parent[x] != b {
      AncTrans(parent, rank, top, a, b, parent[x]);
    }
  }

  /** Two ancestors of the same vertex lie on one path: one is above the other. */
  lemma {:induction false} AncComparable(parent: seq<int>, rank: seq<int>, top: int, a: int, b: int, x: int)
    requires Ranked(parent, rank, top) && Anc(parent, rank, top, a, x) && Anc(parent, rank, top, b, x) && a != b
    ensures Anc(parent, rank, top, a, b) || Anc(parent, rank, top, b, a)
    decreases top - rank[x]
  {
    if parent[x] != a && parent[x] != b {
      AncComparable(parent, rank, top, a, b, parent[x]);
    }
  }

  /** The subtrees of two distinct siblings share no vertex. */
  lemma SiblingsDisjoint(parent: seq<int>, rank: seq<int>, top: int, v1: int, v2: int, x: int)
    requires Ranked(parent, rank, top)
    requires 0 <= v1 < |parent| && 0 <= v2 < |parent| && parent[v1] == parent[v2] != -1 && v1 != v2
    ensures !(InSubtree(parent, rank, top, v1, x) && InSubtree(parent, rank, top, v2, x))
  {
    var u := parent[v1];
    if Anc(parent, rank, top, v1, u) {
      AncRank(parent, rank, top, v1, u);
    }
    if Anc(parent, rank, top, v2, u) {
      AncRank(parent, rank, top, v2, u);
    }
    if Anc(parent, rank, top, v1, x) && Anc(parent, rank, top, v2, x) {
      AncComparable(parent, rank, top, v1, v2, x);
    }
  }

  /**
   * `aux_merge(a, b)`: with `-1` on either side nothing is merged and the
   * other argument is returned; otherwise `b` is merged into `a`, the pair
   * is logged and `a` is returned.
   */
  method AuxMerge(g: BitGraph, a: int, b: int, s: ContrSeq) returns (r: int, s': ContrSeq)
    requires g.Valid()
    requires a != -1 && b != -1 ==> a in g.mask && b in g.mask && a != b
    modifies g
    ensures g.Valid() && g.fullTww >= old(g.fullTww)
    ensures a == -1 ==> r == b && s' == s && unchanged(g)
    ensures a != -1 && b == -1 ==> r == a && s' == s && unchanged(g)
    ensures a != -1 && b != -1 ==>
      && r == a && s' == s + [(a, b)]
      && g.State() == Trigraph.Merged(old(g.State()), a, b) && g.fullTww == Max(old(g.fullTww), g.curTww)
      && g.mask == old(g.mask) - {b} && |g.mask| == old(|g.mask|) - 1
    ensures PairsBelow(s, g.n) ==> PairsBelow(s', g.n)
  {
    if a == -1 {
      return b, s;
    } else if b == -1 {
      return a, s;
    }
    BitPaths.MergeAway(g, a, b);
    s' := s + [(a, b)];
    r := a;
  }

  /** The subtree of `u`: `u` and its proper descendants. */
  ghost function Sub(parent: seq<int>, rank: seq<int>, top: int, u: int): set<int>
    requires Ranked(parent, rank, top)
  {
    set x | 0 <= x < |parent| && InSubtree(parent, rank, top, u, x)
  }

  /**
   * What folding needs to know of the subtrees `sub[u]`: each holds its
   * root, everything else in it has a parent, a child's subtree lies
   * strictly inside its parent's, and the subtrees of two distinct
   * siblings, or of two distinct roots, are disjoint.
   */
  ghost predicate Subtrees(parent: seq<int>, children: seq<seq<int>>, sub: seq<set<int>>)
  {
    && |sub| == |parent| && |children| == |parent|
    && (forall u :: 0 <= u < |parent| ==> u in sub[u])
    && (forall u :: 0 <= u < |parent| ==> forall x :: x in sub[u] && x != u ==> 0 <= x < |parent| && parent[x] != -1)
    && (forall u, i :: 0 <= u < |parent| && 0 <= i < |children[u]| ==>
          0 <= children[u][i] < |parent| && sub[children[u][i]] <= sub[u] - {u})
    && (forall u, i, k :: 0 <= u < |parent| && 0 <= i < |children[u]| && 0 <= k < |children[u]| && i != k ==>
          sub[children[u][i]] * sub[children[u][k]] == {})
    && (forall a, b :: 0 <= a < |parent| && 0 <= b < |parent| && a != b && parent[a] == -1 && parent[b] == -1 ==>
          sub[a] * sub[b] == {})
  }

  /** The subtrees of a forest have the properties folding relies on. */
  lemma SubtreesHold(n: int, m0: set<int>, parent: seq<int>, children: seq<seq<int>>, cpos: seq<int>,
                     rank: seq<int>, top: int)
    requires Forest(n, m0, parent, children, cpos, rank, top)
    ensures Subtrees(parent, children, seq(n, u requires 0 <= u < n => Sub(parent, rank, top, u)))
  {
    var sub := seq(n, u requires 0 <= u < n => Sub(parent, rank, top, u));
    forall u, i | 0 <= u < n && 0 <= i < |children[u]|
      ensures sub[children[u][i]] <= sub[u] - {u}
    {
      var v := children[u][i];
      assert parent[v] == u && Anc(parent, rank, top, u, v);
      forall x | x in sub[v]
        ensures x in sub[u] - {u}
      {
        if x != v {
          AncTrans(parent, rank, top, u, v, x);
          AncRank(parent, rank, top, v, x);
        }
      }
    }
    forall u, i, k | 0 <= u < n && 0 <= i < |children[u]| && 0 <= k < |children[u]| && i != k
      ensures sub[children[u][i]] * sub[children[u][k]] == {}
    {
      var v1, v2 := children[u][i], children[u][k];
      assert cpos[v1] == i && cpos[v2] == k;
      forall x | x in sub[v1]
        ensures x !in sub[v2]
      {
        SiblingsDisjoint(parent, rank, top, v1, v2, x);
      }
    }
    forall a, b | 0 <= a < n && 0 <= b < n && a != b && parent[a] == -1 && parent[b] == -1
      ensures sub[a] * sub[b] == {}
    {
      forall x | x in sub[a]
        ensures x !in sub[b]
      {
        if x in sub[b] && x != a && x != b {
          AncComparable(parent, rank, top, a, b, x);
        }
      }
    }
  }

  /**
   * While the children of `u` are folded, before child number `j`: `u`
   * and the subtrees of the children still to come are intact; `c` is -1
   * or an earlier child, still active; `gc` is -1 or a child of an earlier
   * child, still active; and `gc` is -1 while `c` is.
   */
  ghost predicate FoldInv(mask: set<int>, parent: seq<int>, children: seq<seq<int>>, cpos: seq<int>,
                          sub: seq<set<int>>, u: int, j: int, c: int, gc: int)
  {
    && |children| == |parent| && |cpos| == |parent| && |sub| == |parent|
    && 0 <= u < |parent| && 0 <= j <= |children[u]| && u in mask
    && (forall k :: j <= k < |children[u]| ==> 0 <= children[u][k] < |parent| && sub[children[u][k]] <= mask)
    && (c == -1 || (0 <= c < |parent| && parent[c] == u && cpos[c] < j && c in mask))
    && (gc == -1 || (0 <= gc < |parent| && 0 <= parent[gc] < |parent| && parent[parent[gc]] == u
                     && cpos[parent[gc]] < j && gc in mask))
    && (c == -1 ==> gc == -1)
  }

  /**
   * `merge_tree(u)`: folds the subtree of `u` so that `u` keeps at most
   * one child, and returns that child (-1 for a root, whose children are
   * still merged together). Every merge removes a proper descendant of `u`
   * and logs one pair.
   */
  method MergeTree(g: BitGraph, parent: seq<int>, children: seq<seq<int>>, ghost cpos: seq<int>,
                   ghost rank: seq<int>, ghost top: int, ghost m0: set<int>, ghost sub: seq<set<int>>,
                   u: int, s: ContrSeq)
    returns (r: int, s': ContrSeq)
    requires g.Valid() && Forest(g.n, m0, parent, children, cpos, rank, top) && Subtrees(parent, children, sub)
    requires 0 <= u < g.n && u in g.mask && sub[u] <= g.mask
    modifies g
    ensures g.Valid() && g.mask <= old(g.mask) && u in g.mask && g.fullTww >= old(g.fullTww)
    ensures old(g.mask) - g.mask <= sub[u] - {u}
    ensures r == -1 || (0 <= r < g.n && parent[r] == u && r in g.mask)
    ensures parent[u] == -1 ==> r == -1
    ensures |g.mask| <= old(|g.mask|) && |s'| == |s| + old(|g.mask|) - |g.mask| && s'[..|s|] == s
    decreases rank[u], 1
    ensures PairsBelow(s, g.n) ==> PairsBelow(s', g.n)
  {
    var c, gc := -1, -1;
    s' := s;
    ghost var m1 := g.mask;
    for j := 0 to |children[u]|
      invariant g.Valid() && g.mask <= m1 && g.fullTww >= old(g.fullTww)
      invariant FoldInv(g.mask, parent, children, cpos, sub, u, j, c, gc)
      invariant m1 - g.mask <= sub[u] - {u}
      invariant |g.mask| <= |m1| && |s'| == |s| + |m1| - |g.mask| && s'[..|s|] == s
      invariant PairsBelow(s, g.n) ==> PairsBelow(s', g.n)
    {
      ghost var m2, s2 := g.mask, s';
      c, gc, s' := MergeChild(g, parent, children, cpos, rank, top, m0, sub, u, j, c, gc, s');
      Logged(s, s2, s', m1, m2, g.mask);
    }
    if parent[u] != -1 {
      ghost var m2, s2 := g.mask, s';
      if gc != -1 {
        KeptGrandchild(parent, children, cpos, sub, u, gc);
      }
      c, s' := AuxMerge(g, c, gc, s');
      Logged(s, s2, s', m1, m2, g.mask);
      assert m1 - g.mask <= (m1 - m2) + {gc};
      r := c;
    } else {
      r := -1;
    }
  }

  /** A child of a child of `u` lies in `u`'s subtree, but is not a child of `u`. */
  lemma KeptGrandchild(parent: seq<int>, children: seq<seq<int>>, cpos: seq<int>, sub: seq<set<int>>, u: int, gc: int)
    requires Subtrees(parent, children, sub) && |cpos| == |parent|
    requires 0 <= u < |parent| && 0 <= gc < |parent| && 0 <= parent[gc] < |parent| && parent[parent[gc]] == u
    requires forall x :: 0 <= x < |parent| && 0 <= parent[x] < |parent| ==>
      0 <= cpos[x] < |children[parent[x]]| && children[parent[x]][cpos[x]] == x
    ensures gc in sub[u] - {u} && parent[gc] != u
  {
    var p := parent[gc];
    assert children[p][cpos[gc]] == gc && children[u][cpos[p]] == p;
    assert gc in sub[gc] && sub[gc] <= sub[p] - {p} && sub[p] <= sub[u] - {u};
  }

  /**
   * One turn of `merge_tree(u)`'s loop, for its `j`-th child `v`: fold
   * `v`'s subtree (returning `w`), merge `w` into the grandchild kept so
   * far, then merge `v` into the child kept so far. Every vertex it
   * removes lies in `v`'s subtree, hence below `u`.
   */
  method MergeChild(g: BitGraph, parent: seq<int>, children: seq<seq<int>>, ghost cpos: seq<int>,
                    ghost rank: seq<int>, ghost top: int, ghost m0: set<int>, ghost sub: seq<set<int>>,
                    u: int, j: int, c: int, gc: int, s: ContrSeq)
    returns (c': int, gc': int, s': ContrSeq)
    requires g.Valid() && Forest(g.n, m0, parent, children, cpos, rank, top) && Subtrees(parent, children, sub)
    requires FoldInv(g.mask, parent, children, cpos, sub, u, j, c, gc) && j < |children[u]|
    modifies g
    ensures g.Valid() && g.mask <= old(g.mask) && g.fullTww >= old(g.fullTww)
    ensures FoldInv(g.mask, parent, children, cpos, sub, u, j + 1, c', gc')
    ensures old(g.mask) - g.mask <= sub[u] - {u}
    ensures |g.mask| <= old(|g.mask|) && |s'| == |s| + old(|g.mask|) - |g.mask| && s'[..|s|] == s
    decreases rank[u], 0
    ensures PairsBelow(s, g.n) ==> PairsBelow(s', g.n)
  {
    var v := children[u][j];
    assert parent[v] == u && cpos[v] == j && rank[v] < rank[u];
    ghost var mA := g.mask;
    var w;
    w, s' := MergeTree(g, parent, children, cpos, rank, top, m0, sub, v, s);
    KeptApart(parent, children, cpos, sub, u, j, c, gc, w);
    assert v in sub[v];
    ghost var m1, s1 := g.mask, s';
    if c != -1 {
      assert c !in mA - m1;
    }
    if gc != -1 {
      assert gc !in mA - m1;
    }
    c', gc', s' := MergeKept(g, c, gc, v, w, s');
    Logged(s, s1, s', mA, m1, g.mask);
    FoldStep(mA, m1, g.mask, parent, children, cpos, sub, u, j, c, gc, w, c', gc');
  }

  /**
   * The two `aux_merge` calls of one turn: `w` into the kept grandchild
   * `gc`, then `v` into the kept child `c`. Only `v` and `w` can leave
   * the mask, and the kept child and grandchild it returns are active.
   */
  method MergeKept(g: BitGraph, c: int, gc: int, v: int, w: int, s: ContrSeq) returns (c': int, gc': int, s': ContrSeq)
    requires g.Valid() && v in g.mask && v != w && (w != -1 ==> w in g.mask)
    requires c != -1 ==> c in g.mask && c != v && c != w
    requires gc != -1 ==> gc in g.mask && gc != v && gc != w
    modifies g
    ensures g.Valid() && g.fullTww >= old(g.fullTww)
    ensures c' == (if c == -1 then v else c) && gc' == (if gc == -1 then w else gc)
    ensures g.mask <= old(g.mask) && old(g.mask) - g.mask <= {v, w}
    ensures c' in g.mask && (gc' != -1 ==> gc' in g.mask)
    ensures |g.mask| <= old(|g.mask|) && |s'| == |s| + old(|g.mask|) - |g.mask| && s'[..|s|] == s
    ensures PairsBelow(s, g.n) ==> PairsBelow(s', g.n)
  {
    gc', s' := AuxMerge(g, gc, w, s);
    ghost var m1, s1 := g.mask, s';
    c', s' := AuxMerge(g, c, v, s');
    KeptFacts(old(g.mask), m1, g.mask, s, s1, s', c, gc, v, w);
  }

  /** What the two merges of `MergeKept` do to the active set and the log. */
  lemma KeptFacts(m0: set<int>, m1: set<int>, m2: set<int>, s: ContrSeq, s1: ContrSeq, s2: ContrSeq,
                  c: int, gc: int, v: int, w: int)
    requires v in m0 && v != w && (w != -1 ==> w in m0)
    requires c != -1 ==> c in m0 && c != v && c != w
    requires gc != -1 ==> gc in m0 && gc != v && gc != w
    requires gc == -1 || w == -1 ==> m1 == m0 && s1 == s
    requires gc != -1 && w != -1 ==> m1 == m0 - {w} && |m1| == |m0| - 1 && s1 == s + [(gc, w)]
    requires c == -1 ==> m2 == m1 && s2 == s1
    requires c != -1 ==> m2 == m1 - {v} && |m2| == |m1| - 1 && s2 == s1 + [(c, v)]
    ensures m2 <= m0 && m0 - m2 <= {v, w}
    ensures (if c == -1 then v else c) in m2 && (gc == -1 && w != -1 ==> w in m2) && (gc != -1 ==> gc in m2)
    ensures |m2| <= |m0| && |s2| == |s| + |m0| - |m2| && s2[..|s|] == s
  {
    Logged(s, s1, s2, m0, m1, m2);
  }

  /**
   * `FoldInv` moves past child `j` = `v` when the vertices removed
   * meanwhile are those `merge_tree(v)` removed, `w` and `v`, the kept
   * child and grandchild are chosen as `merge_tree` chooses them, and the
   * ones newly chosen survived.
   */
  lemma FoldStep(mA: set<int>, m1: set<int>, m3: set<int>, parent: seq<int>, children: seq<seq<int>>,
                 cpos: seq<int>, sub: seq<set<int>>, u: int, j: int, c: int, gc: int, w: int, c': int, gc': int)
    requires Subtrees(parent, children, sub) && |cpos| == |parent|
    requires forall x :: 0 <= x < |parent| && 0 <= parent[x] < |parent| ==>
      0 <= cpos[x] < |children[parent[x]]| && children[parent[x]][cpos[x]] == x
    requires FoldInv(mA, parent, children, cpos, sub, u, j, c, gc) && j < |children[u]|
    requires parent[children[u][j]] == u && cpos[children[u][j]] == j
    requires w == -1 || (0 <= w < |parent| && parent[w] == children[u][j])
    requires m3 <= m1 <= mA && -1 !in mA && mA - m1 <= sub[children[u][j]] - {children[u][j]}
    requires m1 - m3 <= {children[u][j], w}
    requires c' == (if c == -1 then children[u][j] else c) && gc' == (if gc == -1 then w else gc)
    requires c' in m3 && (gc' != -1 ==> gc' in m3)
    ensures FoldInv(m3, parent, children, cpos, sub, u, j + 1, c', gc')
    ensures mA - m3 <= sub[u] - {u}
  {
    var v := children[u][j];
    KeptApart(parent, children, cpos, sub, u, j, c, gc, w);
    assert v in sub[v];
    forall x | x in mA - m3
      ensures x in sub[v]
    {
      if x !in mA - m1 {
        assert x in m1 - m3;
      }
    }
    forall k | j + 1 <= k < |children[u]|
      ensures sub[children[u][k]] <= m3
    {
    }
  }

  /**
   * Where the vertices of one turn of `merge_tree(u)`'s loop lie: the
   * child and grandchild kept so far are outside the subtree of the
   * current child `v`, `w` (a child of `v`) is inside it below `v`, and
   * the subtrees of the children still to come are disjoint from it.
   */
  lemma KeptApart(parent: seq<int>, children: seq<seq<int>>, cpos: seq<int>, sub: seq<set<int>>,
                  u: int, j: int, c: int, gc: int, w: int)
    requires Subtrees(parent, children, sub) && |cpos| == |parent|
    requires forall x :: 0 <= x < |parent| && 0 <= parent[x] < |parent| ==>
      0 <= cpos[x] < |children[parent[x]]| && children[parent[x]][cpos[x]] == x
    requires 0 <= u < |parent| && 0 <= j < |children[u]|
    requires c == -1 || (0 <= c < |parent| && parent[c] == u && cpos[c] < j)
    requires gc == -1 || (0 <= gc < |parent| && 0 <= parent[gc] < |parent| && parent[parent[gc]] == u && cpos[parent[gc]] < j)
    requires w == -1 || (0 <= w < |parent| && parent[w] == children[u][j])
    ensures sub[children[u][j]] <= sub[u] - {u}
    ensures c != -1 ==> c !in sub[children[u][j]]
    ensures gc != -1 ==> gc !in sub[children[u][j]]
    ensures w != -1 ==> w in sub[children[u][j]] - {children[u][j]}
    ensures forall k :: j < k < |children[u]| ==> sub[children[u][k]] * sub[children[u][j]] == {}
  {
    var v := children[u][j];
    if c != -1 {
      assert children[u][cpos[c]] == c && c in sub[c];
    }
    if gc != -1 {
      var p := parent[gc];
      assert children[p][cpos[gc]] == gc && children[u][cpos[p]] == p;
      assert gc in sub[gc] && sub[gc] <= sub[p];
    }
    if w != -1 {
      assert children[v][cpos[w]] == w && w in sub[w];
    }
  }

  /**
   * `reduce_trees(seq)`: builds the forest, then folds the tree of every
   * vertex that is still active and has no parent, in ascending order.
   * Every merge removes one active vertex and logs one pair; only
   * vertices that were hung under a neighbour are removed, so a vertex
   * without neighbours is never touched; `full_tww` never drops.
   */
  method ReduceTrees(g: BitGraph, s: ContrSeq) returns (s': ContrSeq)
    requires g.Valid()
    modifies g
    ensures g.Valid() && g.mask <= old(g.mask) && g.fullTww >= old(g.fullTww)
    ensures |g.mask| <= old(|g.mask|) && |s'| == |s| + old(|g.mask|) - |g.mask| && s'[..|s|] == s
    ensures forall x :: x in old(g.mask) && x !in g.mask ==> old(g.adj[x] + g.red[x]) != {}
    ensures old(g.mask) != {} ==> g.mask != {}
    ensures PairsBelow(s, g.n) ==> PairsBelow(s', g.n)
  {
    var parent, children, cpos, rank, top := BuildForest(g);
    ghost var m0, rows := g.mask, Rows(g);
    SubtreesHold(g.n, m0, parent, children, cpos, rank, top);
    ghost var sub := seq(g.n, u requires 0 <= u < g.n => Sub(parent, rank, top, u));
    s' := s;
    for u := 0 to g.n
      invariant g.Valid() && g.mask <= m0 && g.fullTww >= old(g.fullTww)
      invariant |g.mask| <= |m0| && |s'| == |s| + |m0| - |g.mask| && s'[..|s|] == s
      invariant PairsBelow(s, g.n) ==> PairsBelow(s', g.n)
      invariant forall x :: x in m0 && x !in g.mask ==> 0 <= x < g.n && parent[x] != -1
      invariant forall r :: u <= r < g.n && parent[r] == -1 ==> sub[r] - {r} <= g.mask
    {
      ghost var m1, s1 := g.mask, s';
      s' := FoldRoot(g, parent, children, cpos, rank, top, m0, sub, u, s');
      Logged(s, s1, s', m0, m1, g.mask);
    }
    assert forall x :: x in m0 && x !in g.mask ==> parent[x] in rows[x];
    if m0 != {} {
      Nonempty(m0);
      var x :| x in m0;
      var root := RootAbove(g.n, m0, parent, children, cpos, rank, top, x);
      assert root in g.mask;
    }
  }

  /** Following parents from an active vertex ends at an active root. */
  lemma {:induction false} RootAbove(n: int, m: set<int>, parent: seq<int>, children: seq<seq<int>>, cpos: seq<int>,
                                     rank: seq<int>, top: int, x: int)
    returns (r: int)
    requires Forest(n, m, parent, children, cpos, rank, top) && 0 <= x < n && x in m
    ensures 0 <= r < n && r in m && parent[r] == -1
    decreases top - rank[x]
  {
    if parent[x] == -1 {
      r := x;
    } else {
      r := RootAbove(n, m, parent, children, cpos, rank, top, parent[x]);
    }
  }

  /**
   * One turn of `reduce_trees`' last loop: if `u` is an active root, fold
   * its tree. The vertices removed lie below `u`, so the trees of the
   * later roots stay intact.
   */
  method FoldRoot(g: BitGraph, parent: seq<int>, children: seq<seq<int>>, ghost cpos: seq<int>,
                  ghost rank: seq<int>, ghost top: int, ghost m0: set<int>, ghost sub: seq<set<int>>,
                  u: int, s: ContrSeq)
    returns (s': ContrSeq)
    requires g.Valid() && Forest(g.n, m0, parent, children, cpos, rank, top) && Subtrees(parent, children, sub)
    requires 0 <= u < g.n && forall r :: u <= r < g.n && parent[r] == -1 ==> sub[r] - {r} <= g.mask
    modifies g
    ensures g.Valid() && g.mask <= old(g.mask) && g.fullTww >= old(g.fullTww)
    ensures |g.mask| <= old(|g.mask|) && |s'| == |s| + old(|g.mask|) - |g.mask| && s'[..|s|] == s
    ensures forall x :: x in old(g.mask) && x !in g.mask ==> 0 <= x < g.n && parent[x] != -1
    ensures forall r :: u < r < g.n && parent[r] == -1 ==> sub[r] - {r} <= g.mask
    ensures PairsBelow(s, g.n) ==> PairsBelow(s', g.n)
  {
    s' := s;
    if !g.IsDeleted(u) && parent[u] == -1 {
      ghost var m1 := g.mask;
      var r;
      r, s' := MergeTree(g, parent, children, cpos, rank, top, m0, sub, u, s');
      RootStep(m1, g.mask, parent, children, sub, u);
    }
  }

  /** Folding the tree of root `u` leaves the trees of the later roots intact. */
  lemma RootStep(m1: set<int>, m2: set<int>, parent: seq<int>, children: seq<seq<int>>, sub: seq<set<int>>, u: int)
    requires Subtrees(parent, children, sub) && 0 <= u < |parent| && parent[u] == -1
    requires m2 <= m1 && m1 - m2 <= sub[u] - {u}
    requires forall r :: u <= r < |parent| && parent[r] == -1 ==> sub[r] - {r} <= m1
    ensures forall r :: u < r < |parent| && parent[r] == -1 ==> sub[r] - {r} <= m2
    ensures forall x :: x in m1 - m2 ==> 0 <= x < |parent| && parent[x] != -1
  {
    forall r | u < r < |parent| && parent[r] == -1
      ensures sub[r] - {r} <= m2
    {
      assert sub[u] * sub[r] == {};
      forall x | x in sub[r] - {r}
        ensures x in m2
      {
        assert x in m1 && x !in sub[u];
        assert x !in m1 - m2;
      }
    }
    forall x | x in m1 - m2
      ensures 0 <= x < |parent| && parent[x] != -1
    {
      assert x in sub[u] && x != u;
    }
  }

  /** `kernelize_tww_gt2()`: the tree reduction alone, from an empty log. */
  method KernelizeTwwGt2(g: BitGraph) returns (res: ContrSeq)
    requires g.Valid()
    modifies g
    ensures g.Valid() && g.mask <= old(g.mask) && g.fullTww >= old(g.fullTww)
    ensures |g.mask| <= old(|g.mask|) && |res| == old(|g.mask|) - |g.mask|
    ensures PairsBelow(res, g.n)
    ensures old(g.mask) != {} ==> g.mask != {}
  {
    res := ReduceTrees(g, []);
  }

  /**
   * `kernelize_heur()`: path reduction, tree reduction, then path
   * reduction again, all logged into one sequence.
   */
  method KernelizeHeur(g: BitGraph) returns (res: ContrSeq)
    requires g.Valid()
    modifies g
    ensures g.Valid() && g.mask <= old(g.mask) && g.fullTww >= old(g.fullTww)
    ensures |g.mask| <= old(|g.mask|) && |res| == old(|g.mask|) - |g.mask|
  {
    res := BitPaths.ReducePaths(g, []);
    res := ReduceTrees(g, res);
    res := BitPaths.ReducePaths(g, res);
  }
}
