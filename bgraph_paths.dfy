/**
 * Path collapsing on the dense graph (`reduce_paths`): a depth-first walk
 * from every active vertex marks the mid-path vertices (total degree at
 * most 2, and so are all their neighbours) and lists, for each of them,
 * the neighbours whose own walk found them mid-path; then those listed
 * pairs are merged, the union-find mapping every vertex to the survivor
 * of its group.
 *
 * The walk is proved with three ghost companions of its vectors: `par`
 * and `pos` say in which list, and where, a vertex was put, and `stamp`
 * is the time the walk first saw a vertex. A listed vertex is always seen
 * after the vertex whose list holds it, so the listed pairs form a forest
 * and no merge ever meets two vertices of the same group.
 */
module BitPaths {
  import opened Common
  import opened Trigraph
  import opened BitGraphs
  import opened UnionFind

  /**
   * `reduce_paths_aux` on `u`'s answer: `u` and each of its black or red
   * neighbours have total degree at most 2.
   */
  ghost predicate MidPath(g: BitGraph, u: int)
    reads g
    requires g.Valid() && u in g.mask
  {
    && |g.adj[u]| + |g.red[u]| <= 2
    && forall w :: w in g.adj[u] + g.red[u] && 0 <= w < g.n ==> |g.adj[w]| + |g.red[w]| <= 2
  }

  /**
   * What the walk keeps true of its vectors: seen vertices are active and
   * were stamped before `clock`; unseen ones have an empty list; a listed
   * vertex `y` in the list of `x` is a neighbour of `x`, both are seen,
   * `y` was stamped after `x`, and `par`/`pos` locate `y` there (so no
   * vertex is listed twice).
   */
  ghost predicate PathsInv(g: BitGraph, seen: seq<bool>, toMerge: seq<seq<int>>,
                           par: seq<int>, pos: seq<int>, stamp: seq<int>, clock: int)
    reads g
  {
    && g.Sized()
    && |seen| == g.n && |toMerge| == g.n && |par| == g.n && |pos| == g.n && |stamp| == g.n
    && (forall x :: 0 <= x < g.n && seen[x] ==> x in g.mask && stamp[x] < clock)
    && (forall x :: 0 <= x < g.n && !seen[x] ==> toMerge[x] == [])
    && (forall x, i {:trigger toMerge[x][i]} :: 0 <= x < g.n && 0 <= i < |toMerge[x]| ==>
          && 0 <= toMerge[x][i] < g.n
          && toMerge[x][i] in g.adj[x] + g.red[x]
          && seen[x] && seen[toMerge[x][i]]
          && stamp[x] < stamp[toMerge[x][i]]
          && par[toMerge[x][i]] == x && pos[toMerge[x][i]] == i)
  }

  /** Seen vertices stay seen and keep their stamps. */
  ghost predicate Grows(seen: seq<bool>, stamp: seq<int>, seen': seq<bool>, stamp': seq<int>)
  {
    && |seen'| == |seen| && |stamp| == |seen| && |stamp'| == |seen|
    && forall x :: 0 <= x < |seen| && seen[x] ==> seen'[x] && stamp'[x] == stamp[x]
  }

  /**
   * `reduce_paths_aux(u, seen, to_merge)`: true iff `u` was unseen and is
   * a mid-path vertex. A vertex of total degree at most 2 gets seen and
   * its walk recurses into every neighbour, listing those that answer
   * true; when `u` turns out not to be mid-path its list is cleared. Lists
   * of vertices seen before the call are left alone, and every vertex
   * newly listed was unseen before the call.
   */
  method ReducePathsAux(g: BitGraph, u: int, seen: seq<bool>, toMerge: seq<seq<int>>,
                        ghost par: seq<int>, ghost pos: seq<int>, ghost stamp: seq<int>, ghost clock: int)
    returns (mid: bool, seen': seq<bool>, toMerge': seq<seq<int>>,
             ghost par': seq<int>, ghost pos': seq<int>, ghost stamp': seq<int>, ghost clock': int)
    requires g.Valid() && u in g.mask
    requires PathsInv(g, seen, toMerge, par, pos, stamp, clock)
    ensures PathsInv(g, seen', toMerge', par', pos', stamp', clock')
    ensures Grows(seen, stamp, seen', stamp') && clock <= clock'
    ensures forall x :: 0 <= x < g.n && seen'[x] && !seen[x] ==> clock <= stamp'[x]
    ensures forall x :: 0 <= x < g.n && seen[x] ==> toMerge'[x] == toMerge[x]
    ensures forall x, y :: 0 <= x < g.n && y in toMerge'[x] && y !in toMerge[x] ==>
      0 <= y < g.n && !seen[y] && y != u
    ensures mid <==> !seen[u] && MidPath(g, u)
    ensures !seen[u] && |g.adj[u]| + |g.red[u]| <= 2 ==> seen'[u]
    ensures !mid && !seen[u] ==> toMerge'[u] == []
    decreases CountFalse(seen)
  {
    mid, seen', toMerge', par', pos', stamp', clock' := false, seen, toMerge, par, pos, stamp, clock;
    if g.TotalDeg(u) > 2 {
      return;
    }
    if seen[u] {
      return;
    }
    seen', stamp', clock' := seen[u := true], stamp[u := clock], clock + 1;
    MarkKeepsInv(g, seen, toMerge, par, pos, stamp, clock, u);
    CountFalseShrinks(seen, seen', u);
    mid := true;
    var black := g.adj[u];
    ghost var s1, st1, c1 := seen', stamp', clock';
    mid, seen', toMerge', par', pos', stamp', clock' :=
      WalkRow(g, u, black, true, seen, toMerge, seen', toMerge', par', pos', stamp', clock');
    Extend(seen, stamp, clock, s1, st1, c1, seen', stamp', clock');
    CountFalseShrinks(seen[u := true], seen', -1);
    var midRed;
    ghost var s2, st2, c2 := seen', stamp', clock';
    midRed, seen', toMerge', par', pos', stamp', clock' :=
      WalkRow(g, u, g.red[u], mid, seen, toMerge, seen', toMerge', par', pos', stamp', clock');
    Extend(seen, stamp, clock, s2, st2, c2, seen', stamp', clock');
    mid := midRed;
    if !mid {
      ClearKeepsInv(g, seen', toMerge', par', pos', stamp', clock', u);
      toMerge' := toMerge'[u := []];
    }
  }

  /** Two walks that each keep old stamps and stamp new vertices later make one such walk. */
  lemma Extend(seen: seq<bool>, stamp: seq<int>, clock: int, s1: seq<bool>, st1: seq<int>, c1: int,
               s2: seq<bool>, st2: seq<int>, c2: int)
    requires Grows(seen, stamp, s1, st1) && clock <= c1
    requires forall x :: 0 <= x < |seen| && s1[x] && !seen[x] ==> clock <= st1[x]
    requires Grows(s1, st1, s2, st2) && c1 <= c2
    requires forall x :: 0 <= x < |s1| && s2[x] && !s1[x] ==> c1 <= st2[x]
    ensures Grows(seen, stamp, s2, st2) && clock <= c2
    ensures forall x :: 0 <= x < |seen| && s2[x] && !seen[x] ==> clock <= st2[x]
  {
  }

  /** Marking an unseen active vertex seen, stamped `clock`, keeps the invariant. */
  lemma MarkKeepsInv(g: BitGraph, seen: seq<bool>, toMerge: seq<seq<int>>,
                     par: seq<int>, pos: seq<int>, stamp: seq<int>, clock: int, u: int)
    requires PathsInv(g, seen, toMerge, par, pos, stamp, clock) && u in g.mask && 0 <= u < g.n && !seen[u]
    ensures PathsInv(g, seen[u := true], toMerge, par, pos, stamp[u := clock], clock + 1)
    ensures Grows(seen, stamp, seen[u := true], stamp[u := clock])
  {
  }

  /** Emptying one list keeps the invariant. */
  lemma ClearKeepsInv(g: BitGraph, seen: seq<bool>, toMerge: seq<seq<int>>,
                      par: seq<int>, pos: seq<int>, stamp: seq<int>, clock: int, u: int)
    requires PathsInv(g, seen, toMerge, par, pos, stamp, clock) && 0 <= u < g.n
    ensures PathsInv(g, seen, toMerge[u := []], par, pos, stamp, clock)
  {
  }

  /**
   * One of the two loops of `reduce_paths_aux(u)`: over the vertices `v`
   * of one row of `u` in ascending order, recurse into `v`, list `v` if
   * it answered true, and clear `mid` when `v` has total degree above 2.
   * `seen0`/`toMerge0` are the vectors on entry to the enclosing call.
   */
  method WalkRow(g: BitGraph, u: int, row: set<int>, mid0: bool,
                 seen0: seq<bool>, toMerge0: seq<seq<int>>,
                 seen: seq<bool>, toMerge: seq<seq<int>>,
                 ghost par: seq<int>, ghost pos: seq<int>, ghost stamp: seq<int>, ghost clock: int)
    returns (mid: bool, seen': seq<bool>, toMerge': seq<seq<int>>,
             ghost par': seq<int>, ghost pos': seq<int>, ghost stamp': seq<int>, ghost clock': int)
    requires g.Valid() && u in g.mask && (row == g.adj[u] || row == g.red[u])
    requires PathsInv(g, seen, toMerge, par, pos, stamp, clock)
    requires |seen0| == g.n && |toMerge0| == g.n && !seen0[u] && toMerge0[u] == []
    requires Grows(seen0, stamp, seen, stamp) && seen[u] && stamp[u] < clock
    requires CountFalse(seen) < CountFalse(seen0)
    requires forall x :: 0 <= x < g.n && seen0[x] ==> toMerge[x] == toMerge0[x]
    requires forall x, y :: 0 <= x < g.n && y in toMerge[x] && y !in toMerge0[x] ==> 0 <= y < g.n && !seen0[y] && y != u
    ensures PathsInv(g, seen', toMerge', par', pos', stamp', clock')
    ensures Grows(seen, stamp, seen', stamp') && clock <= clock'
    ensures forall x :: 0 <= x < g.n && seen0[x] ==> toMerge'[x] == toMerge0[x]
    ensures forall x, y :: 0 <= x < g.n && y in toMerge'[x] && y !in toMerge0[x] ==> 0 <= y < g.n && !seen0[y] && y != u
    ensures forall x :: 0 <= x < g.n && seen'[x] && !seen[x] ==> clock <= stamp'[x]
    ensures mid <==> mid0 && forall w :: w in row && 0 <= w < g.n ==> |g.adj[w]| + |g.red[w]| <= 2
    decreases CountFalse(seen0), 2
  {
    mid, seen', toMerge', par', pos', stamp', clock' := mid0, seen, toMerge, par, pos, stamp, clock;
    for v := 0 to g.n
      invariant PathsInv(g, seen', toMerge', par', pos', stamp', clock')
      invariant Grows(seen, stamp, seen', stamp') && clock <= clock'
      invariant forall x :: 0 <= x < g.n && seen0[x] ==> toMerge'[x] == toMerge0[x]
      invariant forall x, y :: 0 <= x < g.n && y in toMerge'[x] && y !in toMerge0[x] ==> 0 <= y < g.n && !seen0[y] && y != u
      invariant forall x :: 0 <= x < g.n && seen'[x] && !seen[x] ==> clock <= stamp'[x]
      invariant mid <==> mid0 && forall w :: w in row && 0 <= w < v ==> |g.adj[w]| + |g.red[w]| <= 2
    {
      mid, seen', toMerge', par', pos', stamp', clock' :=
        WalkStep(g, u, v, row, mid, mid0, seen0, toMerge0, seen, stamp, clock, seen', toMerge', par', pos', stamp', clock');
    }
  }

  /**
   * The body of the loop of `WalkRow` for one vertex `v`: when `v` is in
   * the row, visit it and clear `mid` when `v` has total degree above 2.
   * `seen`/`stamp`/`clock` are the values on entry to the loop.
   */
  method WalkStep(g: BitGraph, u: int, v: int, row: set<int>, mid: bool, ghost mid0: bool,
                  seen0: seq<bool>, toMerge0: seq<seq<int>>,
                  ghost seen: seq<bool>, ghost stamp: seq<int>, ghost clock: int,
                  seen1: seq<bool>, toMerge1: seq<seq<int>>,
                  ghost par1: seq<int>, ghost pos1: seq<int>, ghost stamp1: seq<int>, ghost clock1: int)
    returns (mid': bool, seen': seq<bool>, toMerge': seq<seq<int>>,
             ghost par': seq<int>, ghost pos': seq<int>, ghost stamp': seq<int>, ghost clock': int)
    requires g.Valid() && u in g.mask && (row == g.adj[u] || row == g.red[u]) && 0 <= v
    requires |seen0| == g.n && |toMerge0| == g.n && !seen0[u] && toMerge0[u] == []
    requires Grows(seen0, stamp, seen, stamp) && seen[u] && stamp[u] < clock
    requires CountFalse(seen) < CountFalse(seen0)
    requires PathsInv(g, seen1, toMerge1, par1, pos1, stamp1, clock1)
    requires Grows(seen, stamp, seen1, stamp1) && clock <= clock1
    requires forall x :: 0 <= x < g.n && seen0[x] ==> toMerge1[x] == toMerge0[x]
    requires forall x, y :: 0 <= x < g.n && y in toMerge1[x] && y !in toMerge0[x] ==> 0 <= y < g.n && !seen0[y] && y != u
    requires forall x :: 0 <= x < g.n && seen1[x] && !seen[x] ==> clock <= stamp1[x]
    requires mid <==> mid0 && forall w :: w in row && 0 <= w < v ==> |g.adj[w]| + |g.red[w]| <= 2
    ensures PathsInv(g, seen', toMerge', par', pos', stamp', clock')
    ensures Grows(seen, stamp, seen', stamp') && clock <= clock'
    ensures forall x :: 0 <= x < g.n && seen0[x] ==> toMerge'[x] == toMerge0[x]
    ensures forall x, y :: 0 <= x < g.n && y in toMerge'[x] && y !in toMerge0[x] ==> 0 <= y < g.n && !seen0[y] && y != u
    ensures forall x :: 0 <= x < g.n && seen'[x] && !seen[x] ==> clock <= stamp'[x]
    ensures mid' <==> mid0 && forall w :: w in row && 0 <= w < v + 1 ==> |g.adj[w]| + |g.red[w]| <= 2
    decreases CountFalse(seen0), 1
  {
    mid', seen', toMerge', par', pos', stamp', clock' := mid, seen1, toMerge1, par1, pos1, stamp1, clock1;
    if v in row {
      CountFalseShrinks(seen, seen1, -1);
      seen', toMerge', par', pos', stamp', clock' :=
        Visit(g, u, v, seen0, toMerge0, seen1, toMerge1, par1, pos1, stamp1, clock1);
      Extend(seen, stamp, clock, seen1, stamp1, clock1, seen', stamp', clock');
      if g.TotalDeg(v) > 2 {
        mid' := false;
      }
    }
  }

  /**
   * The body of either loop for one neighbour `v` of `u`: recurse into `v`
   * and append `v` to the list of `u` when it answers true.
   */
  method Visit(g: BitGraph, u: int, v: int,
               seen0: seq<bool>, toMerge0: seq<seq<int>>,
               seen: seq<bool>, toMerge: seq<seq<int>>,
               ghost par: seq<int>, ghost pos: seq<int>, ghost stamp: seq<int>, ghost clock: int)
    returns (seen': seq<bool>, toMerge': seq<seq<int>>,
             ghost par': seq<int>, ghost pos': seq<int>, ghost stamp': seq<int>, ghost clock': int)
    requires g.Valid() && u in g.mask && v in g.adj[u] + g.red[u]
    requires PathsInv(g, seen, toMerge, par, pos, stamp, clock)
    requires |seen0| == g.n && |toMerge0| == g.n && !seen0[u] && toMerge0[u] == []
    requires seen[u] && stamp[u] < clock && forall x :: 0 <= x < g.n && seen0[x] ==> seen[x]
    requires CountFalse(seen) < CountFalse(seen0)
    requires forall x :: 0 <= x < g.n && seen0[x] ==> toMerge[x] == toMerge0[x]
    requires forall x, y :: 0 <= x < g.n && y in toMerge[x] && y !in toMerge0[x] ==> 0 <= y < g.n && !seen0[y] && y != u
    ensures PathsInv(g, seen', toMerge', par', pos', stamp', clock')
    ensures Grows(seen, stamp, seen', stamp') && clock <= clock'
    ensures forall x :: 0 <= x < g.n && seen0[x] ==> toMerge'[x] == toMerge0[x]
    ensures forall x, y :: 0 <= x < g.n && y in toMerge'[x] && y !in toMerge0[x] ==> 0 <= y < g.n && !seen0[y] && y != u
    ensures forall x :: 0 <= x < g.n && seen'[x] && !seen[x] ==> clock <= stamp'[x]
    decreases CountFalse(seen0), 0
  {
    var r;
    r, seen', toMerge', par', pos', stamp', clock' := ReducePathsAux(g, v, seen, toMerge, par, pos, stamp, clock);
    if r {
      assert forall x :: 0 <= x < g.n ==> v !in toMerge'[x] by {
        forall x, i | 0 <= x < g.n && 0 <= i < |toMerge'[x]|
          ensures toMerge'[x][i] != v
        {
          if toMerge'[x][i] in toMerge[x] {
            var k :| 0 <= k < |toMerge[x]| && toMerge[x][k] == toMerge'[x][i];
            assert seen[toMerge[x][k]];
          }
        }
      }
      ListKeepsInv(g, u, v, seen', toMerge', par', pos', stamp', clock');
      par', pos' := par'[v := u], pos'[v := |toMerge'[u]|];
      toMerge' := toMerge'[u := toMerge'[u] + [v]];
    }
  }

  /** Appending a seen neighbour `v`, stamped after `u` and listed nowhere, to the list of `u` keeps the invariant. */
  lemma ListKeepsInv(g: BitGraph, u: int, v: int, seen: seq<bool>, toMerge: seq<seq<int>>,
                     par: seq<int>, pos: seq<int>, stamp: seq<int>, clock: int)
    requires PathsInv(g, seen, toMerge, par, pos, stamp, clock)
    requires 0 <= u < g.n && 0 <= v < g.n && v in g.adj[u] + g.red[u]
    requires seen[u] && seen[v] && stamp[u] < stamp[v]
    requires forall x :: 0 <= x < g.n ==> v !in toMerge[x]
    ensures PathsInv(g, seen, toMerge[u := toMerge[u] + [v]], par[v := u], pos[v := |toMerge[u]|], stamp, clock)
  {
    var t := toMerge[u := toMerge[u] + [v]];
    forall x, i | 0 <= x < g.n && 0 <= i < |t[x]| && t[x][i] != v
      ensures par[v := u][t[x][i]] == x && pos[v := |toMerge[u]|][t[x][i]] == i
    {
      assert t[x][i] == toMerge[x][i];
    }
  }

  /**
   * The walk's lists as the merging phase needs them, without the graph:
   * every listed pair lies in `m0`, the listed vertex was stamped after
   * the owner of its list, and `par`/`pos` locate it.
   */
  ghost predicate Listed(n: int, toMerge: seq<seq<int>>, par: seq<int>, pos: seq<int>, stamp: seq<int>, m0: set<int>)
  {
    && |toMerge| == n && |par| == n && |pos| == n && |stamp| == n
    && (forall x :: x in m0 ==> 0 <= x < n)
    && (forall x, i {:trigger toMerge[x][i]} :: 0 <= x < n && 0 <= i < |toMerge[x]| ==>
          && 0 <= toMerge[x][i] < n && x in m0 && toMerge[x][i] in m0
          && stamp[x] < stamp[toMerge[x][i]]
          && par[toMerge[x][i]] == x && pos[toMerge[x][i]] == i)
  }

  /** The pair that puts `y` in a list comes before position `j` of list `u`. */
  ghost predicate Done(par: seq<int>, pos: seq<int>, y: int, u: int, j: int)
    requires 0 <= y < |par| && |pos| == |par|
  {
    0 <= par[y] && (par[y] < u || (par[y] == u && pos[y] < j))
  }

  /**
   * The merging phase's invariant before position `j` of list `u`: every
   * vertex not yet merged as a listed vertex is its own representative; a
   * representative was stamped no later than the members of its group;
   * the active vertices are the representatives among `m0`; and groups
   * of `m0` stay inside `m0`.
   */
  ghost predicate MergeInv(n: int, mask: set<int>, rep: seq<int>, par: seq<int>, pos: seq<int>, stamp: seq<int>,
                           m0: set<int>, u: int, j: int)
  {
    && |rep| == n && |par| == n && |pos| == n && |stamp| == n
    && (forall x :: 0 <= x < n ==> 0 <= rep[x] < n)
    && (forall x :: 0 <= x < n && !Done(par, pos, x, u, j) ==> rep[x] == x)
    && (forall x :: 0 <= x < n ==> stamp[rep[x]] <= stamp[x])
    && (forall x :: 0 <= x < n ==> (x in mask <==> x in m0 && rep[x] == x))
    && (forall x :: x in m0 ==> 0 <= x < n && rep[x] in m0)
  }

  /** Merging the group of a listed `v` into that of `u` moves the invariant past `v`. */
  lemma MergeInvStep(n: int, mask: set<int>, rep: seq<int>, par: seq<int>, pos: seq<int>, stamp: seq<int>,
                     m0: set<int>, u: int, j: int, v: int, fu: int)
    requires MergeInv(n, mask, rep, par, pos, stamp, m0, u, j)
    requires 0 <= u < n && 0 <= v < n && par[v] == u && pos[v] == j && stamp[u] < stamp[v]
    requires fu == rep[u] && rep[fu] == fu && rep[v] == v && u in m0
    ensures fu != v
    ensures MergeInv(n, mask - {v}, Relabelled(rep, fu, v), par, pos, stamp, m0, u, j + 1)
  {
    var r := Relabelled(rep, fu, v);
    assert stamp[fu] <= stamp[u];
    forall x | 0 <= x < n && !Done(par, pos, x, u, j + 1)
      ensures r[x] == x
    {
      assert !Done(par, pos, x, u, j);
    }
    forall x | 0 <= x < n
      ensures stamp[r[x]] <= stamp[x]
      ensures x in mask - {v} <==> x in m0 && r[x] == x
    {
    }
  }

  /**
   * One step of the merging phase, for the `j`-th vertex `v` listed by
   * `u`: merges the group of `v` into that of `u` in the graph, logs
   * `(find(u), find(v))`, and unions `u` and `v`. The two groups always
   * differ, because `v` still represents itself and was stamped after
   * `u`, whose representative was stamped no later than `u`.
   */
  method MergeListed(g: BitGraph, uf: OrderedUnionFind, u: int, j: int, toMerge: seq<seq<int>>,
                     ghost par: seq<int>, ghost pos: seq<int>, ghost stamp: seq<int>, ghost m0: set<int>,
                     s: ContrSeq)
    returns (s': ContrSeq)
    requires g.Valid() && uf.Valid() && |uf.parent| == g.n
    requires Listed(g.n, toMerge, par, pos, stamp, m0)
    requires 0 <= u < g.n && 0 <= j < |toMerge[u]|
    requires MergeInv(g.n, g.mask, uf.rep, par, pos, stamp, m0, u, j)
    modifies g, uf
    ensures g.Valid() && uf.Valid() && |uf.parent| == g.n
    ensures MergeInv(g.n, g.mask, uf.rep, par, pos, stamp, m0, u, j + 1)
    ensures g.mask <= old(g.mask) && |g.mask| == old(|g.mask|) - 1
    ensures |s'| == |s| + 1 && s'[..|s|] == s && s'[|s|].0 in g.mask
    ensures g.fullTww >= old(g.fullTww)
  {
    var v := toMerge[u][j];
    ghost var rep0 := uf.rep;
    assert !Done(par, pos, v, u, j);
    var fu := uf.Find(u);
    var fv := uf.Find(v);
    assert fv == v && fu == rep0[u] && rep0[fu] == fu;
    MergeInvStep(g.n, g.mask, rep0, par, pos, stamp, m0, u, j, v, fu);
    MergeAway(g, fu, fv);
    s' := LogAndUnion(uf, g.n, u, v, fu, s);
  }

  /** Logs `(find(u), find(v))` and unions `u` and `v`, once the groups are merged in the graph. */
  method LogAndUnion(uf: OrderedUnionFind, ghost n: int, u: int, v: int, ghost fu: int, s: ContrSeq)
    returns (s': ContrSeq)
    requires uf.Valid() && |uf.parent| == n && 0 <= u < n && 0 <= v < n
    requires fu == uf.rep[u] && uf.rep[v] == v && fu != v
    modifies uf
    ensures uf.Valid() && |uf.parent| == n
    ensures s' == s + [(fu, v)]
    ensures uf.rep == Relabelled(old(uf.rep), fu, v)
  {
    ghost var rep0 := uf.rep;
    var ru := uf.Find(u);
    var rv := uf.Find(v);
    s' := s + [(ru, rv)];
    var merged := uf.Merge(u, v);
    assert uf.rep == Relabelled(rep0, fu, v);
  }

  /**
   * `merge_nohint(a, b)`: the graph becomes the merge of `b` into `a`, and
   * the width is raised to the new current width.
   */
  method MergeAway(g: BitGraph, a: int, b: int)
    requires g.Valid() && a in g.mask && b in g.mask && a != b
    modifies g
    ensures g.Valid() && g.State() == Merged(old(g.State()), a, b)
    ensures g.fullTww == Max(old(g.fullTww), g.curTww)
    ensures g.mask == old(g.mask) - {b} && g.fullTww >= old(g.fullTww)
  {
    g.MergeNoHint(a, b);
  }

  /**
   * `reduce_paths(seq)`: walks from every active vertex in ascending
   * order, then for each `u` in order and each `v` listed by `u`, merges
   * `find(v)` into `find(u)`, logs the pair and unions them. Each merge
   * removes one active vertex and logs one pair; `full_tww` never drops.
   */
  method ReducePaths(g: BitGraph, s: ContrSeq) returns (s': ContrSeq)
    requires g.Valid()
    modifies g
    ensures g.Valid() && g.mask <= old(g.mask)
    ensures |g.mask| <= old(|g.mask|) && |s'| == |s| + old(|g.mask|) - |g.mask| && s'[..|s|] == s
    ensures g.fullTww >= old(g.fullTww)
  {
    ghost var m0 := g.mask;
    var toMerge, par, pos, stamp := WalkAll(g);
    var uf := new OrderedUnionFind(g.n);
    s' := s;
    for u := 0 to g.n
      invariant g.Valid() && uf.Valid() && |uf.parent| == g.n
      invariant MergeInv(g.n, g.mask, uf.rep, par, pos, stamp, m0, u, 0)
      invariant g.mask <= m0 && |g.mask| <= |m0| && |s'| == |s| + |m0| - |g.mask| && s'[..|s|] == s
      invariant g.fullTww >= old(g.fullTww)
    {
      ghost var m1, s1 := g.mask, s';
      s' := MergeList(g, uf, u, toMerge, par, pos, stamp, m0, s');
      Logged(s, s1, s', m0, m1, g.mask);
    }
  }

  /** The walking phase: `reduce_paths_aux` from every active vertex in ascending order. */
  method WalkAll(g: BitGraph) returns (toMerge: seq<seq<int>>, ghost par: seq<int>, ghost pos: seq<int>, ghost stamp: seq<int>)
    requires g.Valid()
    ensures Listed(g.n, toMerge, par, pos, stamp, g.mask)
  {
    var seen := seq(g.n, _ => false);
    toMerge := seq(g.n, _ => []);
    ghost var clock;
    par, pos, stamp, clock := seq(g.n, _ => -1), seq(g.n, _ => 0), seq(g.n, _ => 0), 0;
    var verts := g.mask;
    for u := 0 to g.n
      invariant PathsInv(g, seen, toMerge, par, pos, stamp, clock)
    {
      if u in verts {
        var mid;
        mid, seen, toMerge, par, pos, stamp, clock := ReducePathsAux(g, u, seen, toMerge, par, pos, stamp, clock);
      }
    }
  }

  /** The merging phase for the list of one vertex `u`, in order. */
  method MergeList(g: BitGraph, uf: OrderedUnionFind, u: int, toMerge: seq<seq<int>>,
                   ghost par: seq<int>, ghost pos: seq<int>, ghost stamp: seq<int>, ghost m0: set<int>,
                   s: ContrSeq)
    returns (s': ContrSeq)
    requires g.Valid() && uf.Valid() && |uf.parent| == g.n
    requires Listed(g.n, toMerge, par, pos, stamp, m0) && 0 <= u < g.n
    requires MergeInv(g.n, g.mask, uf.rep, par, pos, stamp, m0, u, 0)
    modifies g, uf
    ensures g.Valid() && uf.Valid() && |uf.parent| == g.n
    ensures MergeInv(g.n, g.mask, uf.rep, par, pos, stamp, m0, u + 1, 0)
    ensures g.mask <= old(g.mask) && |g.mask| <= old(|g.mask|)
    ensures |s'| == |s| + old(|g.mask|) - |g.mask| && s'[..|s|] == s
    ensures g.fullTww >= old(g.fullTww)
  {
    s' := s;
    for j := 0 to |toMerge[u]|
      invariant g.Valid() && uf.Valid() && |uf.parent| == g.n
      invariant MergeInv(g.n, g.mask, uf.rep, par, pos, stamp, m0, u, j)
      invariant g.mask <= old(g.mask) && |g.mask| <= old(|g.mask|)
      invariant |s'| == |s| + old(|g.mask|) - |g.mask| && s'[..|s|] == s
      invariant g.fullTww >= old(g.fullTww)
    {
      ghost var m1, s1 := g.mask, s';
      s' := MergeListed(g, uf, u, j, toMerge, par, pos, stamp, m0, s');
      Logged(s, s1, s', old(g.mask), m1, g.mask);
    }
    assert forall x :: 0 <= x < g.n && !Done(par, pos, x, u + 1, 0) ==> !Done(par, pos, x, u, |toMerge[u]|);
  }
}
