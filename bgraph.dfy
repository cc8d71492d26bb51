/**
 * The dense contraction graph `BitGraph` that the exact search works on.
 * Each vertex has a black row and a red row, `vertex_mask` holds the
 * active vertices, `full_tww` and `cur_tww` are the widths reached so
 * far, and `key` holds one label per vertex so that two search states
 * that contracted the same groups share a key.
 *
 * A row is a `LongBitset` in the source; here it is the set it stands for
 * (the word encoding is proved separately). A range-for over a
 * `LongBitset` visits members in ascending order, so the loops below scan
 * the indices 0..n-1 in order and skip non-members. The only loops that
 * change the row they walk remove the element just visited, which the
 * ascending iterator never sees again, so walking a snapshot of the row
 * is the same.
 */
module BitGraphs {
  import opened Common
  import opened Trigraph
  import LongBitsets

  /**
   * The value of `char c = i` for a label 0 <= i < 256, with `char` a
   * signed 8-bit type: labels from 128 on wrap around to negative values.
   */
  function CharOf(i: int): (c: int)
    requires 0 <= i < 256
    ensures -128 <= c < 128
    ensures (c - i) % 256 == 0
  {
    if i < 128 then i else i - 256
  }

  /** Distinct vertex numbers get distinct initial labels. */
  lemma CharOfInjective(i: int, j: int)
    requires 0 <= i < 256 && 0 <= j < 256 && i != j
    ensures CharOf(i) != CharOf(j)
  {
  }

  /**
   * Relabelling joins exactly two label classes: afterwards two vertices
   * share a label iff they did before, or their labels were `lo` and `hi`.
   */
  lemma RelabelledJoins(key: seq<int>, lo: int, hi: int, x: int, y: int)
    requires 0 <= x < |key| && 0 <= y < |key| && lo != hi
    ensures Relabelled(key, lo, hi)[x] == Relabelled(key, lo, hi)[y] ==>
      key[x] == key[y] || ({key[x], key[y]} == {lo, hi})
    ensures key[x] == key[y] || ({key[x], key[y]} == {lo, hi}) ==>
      Relabelled(key, lo, hi)[x] == Relabelled(key, lo, hi)[y]
  {
  }

  /** Lexicographic order on pairs. */
  predicate PairLess(a: (int, int), b: (int, int))
  {
    a.0 < b.0 || (a.0 == b.0 && a.1 < b.1)
  }

  /** Lexicographic order on the `(-score, u, v)` triples `options` sorts. */
  predicate TripleLess(a: (int, int, int), b: (int, int, int))
  {
    a.0 < b.0 || (a.0 == b.0 && (a.1 < b.1 || (a.1 == b.1 && a.2 < b.2)))
  }

  predicate StrictlySorted(s: seq<(int, int, int)>)
  {
    forall i, j :: 0 <= i < j < |s| ==> TripleLess(s[i], s[j])
  }

  /** Insertion of `x` into a sorted sequence. */
  function Insert(x: (int, int, int), s: seq<(int, int, int)>): seq<(int, int, int)>
  {
    if s == [] then [x]
    else if TripleLess(x, s[0]) then [x] + s
    else [s[0]] + Insert(x, s[1..])
  }

  lemma {:induction false} InsertSorted(x: (int, int, int), s: seq<(int, int, int)>)
    requires StrictlySorted(s) && x !in s
    ensures StrictlySorted(Insert(x, s))
    ensures |Insert(x, s)| == |s| + 1
    ensures forall y :: y in Insert(x, s) <==> y in s || y == x
  {
    if s != [] && !TripleLess(x, s[0]) {
      assert StrictlySorted(s[1..]);
      InsertSorted(x, s[1..]);
      var t := Insert(x, s[1..]);
      assert Insert(x, s) == [s[0]] + t;
      forall y | y in t
        ensures TripleLess(s[0], y)
      {
        if y != x {
          var k :| 0 <= k < |s[1..]| && s[1..][k] == y;
          assert s[k + 1] == y;
        }
      }
    }
  }

  /**
   * `std::sort` over triples that are pairwise distinct: the result is
   * strictly increasing and holds the same elements.
   */
  method SortTriples(s: seq<(int, int, int)>) returns (r: seq<(int, int, int)>)
    requires forall i, j :: 0 <= i < j < |s| ==> s[i] != s[j]
    ensures StrictlySorted(r) && |r| == |s|
    ensures forall y :: y in r <==> y in s
  {
    r := [];
    for i := 0 to |s|
      invariant StrictlySorted(r) && |r| == i
      invariant forall y :: y in r <==> y in s[..i]
    {
      assert s[i] !in s[..i];
      InsertSorted(s[i], r);
      r := Insert(s[i], r);
      assert s[..i + 1] == s[..i] + [s[i]];
    }
    assert s[..|s|] == s;
  }

  class BitGraph {
    const n: int
    var fullTww: int
    var curTww: int
    var adj: seq<set<int>>
    var red: seq<set<int>>
    var mask: set<int>
    var key: seq<int>

    /** The rows and mask as a `Trigraph.Shape` value. */
    function State(): Shape
      reads this
    {
      Shape(adj, red, mask)
    }

    /** One row of each colour and one label per vertex. */
    ghost predicate Sized()
      reads this
    {
      0 <= n <= LongBitsets.MAX_SIZE && |adj| == n && |red| == n && |key| == n
    }

    /**
     * The class invariant: a well-formed trigraph over the vertices
     * 0..n-1 whose labels are `char` values, distinct on active vertices.
     */
    ghost predicate Valid()
      reads this
    {
      && Sized()
      && WellFormed(State())
      && KeysDistinct(key, mask)
      && 0 <= curTww <= n
    }

    /**
     * `BitGraph(n, past_tww)`: all of 0..n-1 active, no edges, label `i`
     * for vertex `i`, `full_tww = past_tww` and `cur_tww = 0`.
     */
    constructor (n: int, pastTww: int)
      requires 0 <= n <= LongBitsets.MAX_SIZE
      ensures Valid() && this.n == n
      ensures forall i :: i in mask <==> 0 <= i < n
      ensures forall i :: 0 <= i < n ==> adj[i] == {} && red[i] == {} && key[i] == CharOf(i)
      ensures fullTww == pastTww && curTww == 0
    {
      var k := seq(n, _ => 0);
      for i := 0 to n
        invariant |k| == n
        invariant forall j :: 0 <= j < i ==> k[j] == CharOf(j)
      {
        k := k[i := CharOf(i)];
      }
      this.n := n;
      fullTww := pastTww;
      curTww := 0;
      adj := seq(n, _ => {});
      red := seq(n, _ => {});
      mask := Below(n);
      key := k;
      new;
      forall x, y | x in mask && y in mask && x != y
        ensures key[x] != key[y]
      {
        CharOfInjective(x, y);
      }
    }

    /** The copy `copy(from)` (and `BitGraph res = *this`) makes. */
    constructor Copy(from: BitGraph)
      ensures n == from.n && fullTww == from.fullTww && curTww == from.curTww
      ensures adj == from.adj && red == from.red && mask == from.mask && key == from.key
    {
      n := from.n;
      fullTww := from.fullTww;
      curTww := from.curTww;
      adj := from.adj;
      red := from.red;
      mask := from.mask;
      key := from.key;
    }

    /** `actual_n()`: the number of active vertices, at most `n`. */
    function ActualN(): (r: int)
      reads this
      requires Valid()
      ensures r == |mask| && 0 <= r <= n
    {
      SubsetBelow(mask, n);
      |mask|
    }

    /** `total_deg(u)`: with disjoint rows, the number of distinct neighbours. */
    function TotalDeg(u: int): (r: int)
      reads this
      requires Valid() && u in mask
      ensures r == |adj[u] + red[u]|
    {
      |adj[u]| + |red[u]|
    }

    /** `adjacent(u, v)`: a black or a red edge joins them. */
    predicate Adjacent(u: int, v: int)
      reads this
      requires Sized() && 0 <= u < n
    {
      v in adj[u] || v in red[u]
    }

    /** Adjacency is symmetric on active vertices. */
    lemma AdjacentSymmetric(u: int, v: int)
      requires Valid() && u in mask && v in mask
      ensures Adjacent(u, v) == Adjacent(v, u)
    {
    }

    /** `is_deleted(u)`. */
    predicate IsDeleted(u: int)
      reads this
    {
      u !in mask
    }

    /**
     * `non_neighbors(u)`, computed as the source does: the complement of
     * the black row over all 256 slots, intersected with the mask, without
     * `u`. That is the active vertices other than `u` that are not black
     * neighbours of `u`.
     */
    function NonNeighbors(u: int): (r: set<int>)
      reads this
      requires Valid() && 0 <= u < n
      ensures r == mask - adj[u] - {u}
    {
      ((Below(LongBitsets.MAX_SIZE) - adj[u]) * mask) - {u}
    }

    /**
     * `iter_pair_diff_lt_nodes`: the pairs `u < v` of active vertices, in
     * the order the callback receives them (lexicographic).
     */
    method PairsAscending() returns (ps: seq<(int, int)>)
      requires Valid()
      ensures forall i, j :: 0 <= i < j < |ps| ==> PairLess(ps[i], ps[j])
      ensures forall p :: p in ps <==> p.0 in mask && p.1 in mask && p.0 < p.1
    {
      ps := [];
      for u := 0 to n
        invariant forall i, j :: 0 <= i < j < |ps| ==> PairLess(ps[i], ps[j])
        invariant forall p :: p in ps <==> p.0 in mask && p.1 in mask && p.0 < p.1 && p.0 < u
      {
        if u in mask {
          for v := u + 1 to n
            invariant forall i, j :: 0 <= i < j < |ps| ==> PairLess(ps[i], ps[j])
            invariant forall p :: p in ps <==>
              p.0 in mask && p.1 in mask && p.0 < p.1 && (p.0 < u || (p.0 == u && p.1 < v))
          {
            if v in mask {
              assert forall i :: 0 <= i < |ps| ==> PairLess(ps[i], (u, v)) by {
                forall i | 0 <= i < |ps|
                  ensures PairLess(ps[i], (u, v))
                {
                  assert ps[i] in ps;
                }
              }
              ps := ps + [(u, v)];
            }
          }
        }
      }
    }

    /** The sort key `options` gives the pair `(u, v)`. */
    function OptionKey(p: (int, int)): (int, int, int)
      reads this
      requires Sized() && 0 <= p.0 < n && 0 <= p.1 < n
    {
      (-|red[p.0]| - |red[p.1]|, p.0, p.1)
    }

    /**
     * `options()`: every pair `u < v` of active vertices exactly once,
     * by decreasing `red_deg(u) + red_deg(v)`, ties broken by `(u, v)`.
     */
    method Options() returns (res: ContrSeq)
      requires Valid()
      ensures forall p :: p in res <==> p.0 in mask && p.1 in mask && p.0 < p.1
      ensures forall i, j :: 0 <= i < j < |res| ==> TripleLess(OptionKey(res[i]), OptionKey(res[j]))
    {
      var ps := PairsAscending();
      var tmp := KeysOf(ps);
      assert forall i, j :: 0 <= i < j < |tmp| ==> tmp[i] != tmp[j] by {
        forall i, j | 0 <= i < j < |tmp|
          ensures tmp[i] != tmp[j]
        {
          assert PairLess(ps[i], ps[j]);
        }
      }
      var sorted := SortTriples(tmp);
      forall i | 0 <= i < |sorted|
        ensures 0 <= sorted[i].1 < n && 0 <= sorted[i].2 < n && sorted[i].1 < sorted[i].2
        ensures (sorted[i].1, sorted[i].2) in ps && OptionKey((sorted[i].1, sorted[i].2)) == sorted[i]
      {
        assert sorted[i] in tmp;
        var k :| 0 <= k < |tmp| && tmp[k] == sorted[i];
        assert ps[k] in ps;
        assert tmp[k] == OptionKey(ps[k]);
        assert (sorted[i].1, sorted[i].2) == ps[k];
      }
      res := seq(|sorted|, i requires 0 <= i < |sorted| => (sorted[i].1, sorted[i].2));
      forall p | p in ps
        ensures p in res
      {
        var k :| 0 <= k < |ps| && ps[k] == p;
        assert tmp[k] in sorted;
        var j :| 0 <= j < |sorted| && sorted[j] == tmp[k];
        assert res[j] == p;
      }
    }

    /** The sort keys of the pairs `ps`, in order. */
    method KeysOf(ps: seq<(int, int)>) returns (tmp: seq<(int, int, int)>)
      requires Sized() && forall p :: p in ps ==> 0 <= p.0 < n && 0 <= p.1 < n
      ensures |tmp| == |ps| && forall j :: 0 <= j < |ps| ==> tmp[j] == OptionKey(ps[j])
    {
      tmp := [];
      for i := 0 to |ps|
        invariant |tmp| == i
        invariant forall j :: 0 <= j < i ==> tmp[j] == OptionKey(ps[j])
      {
        tmp := tmp + [OptionKey(ps[i])];
      }
    }

    /** `merge_cost(u, v)`: `(red(u) | red(v) | (adj(u) ^ adj(v)))` without `u` and `v`. */
    function MergeCost(u: int, v: int): (r: set<int>)
      reads this
      requires Sized() && 0 <= u < n && 0 <= v < n
      ensures r == Trigraph.MergeCost(State(), u, v)
    {
      ((red[u] + red[v] + ((adj[u] - adj[v]) + (adj[v] - adj[u]))) - {u}) - {v}
    }

    /** `add_edge(u, v, red)`: inserts the edge into both rows of one colour. */
    method AddEdge(u: int, v: int, isRed: bool)
      requires Sized() && 0 <= u < n && 0 <= v < n && u != v
      modifies this
      ensures Sized() && mask == old(mask) && key == old(key)
      ensures fullTww == old(fullTww) && curTww == old(curTww)
      ensures isRed ==> adj == old(adj) && red == old(red)[u := old(red)[u] + {v}][v := old(red)[v] + {u}]
      ensures !isRed ==> red == old(red) && adj == old(adj)[u := old(adj)[u] + {v}][v := old(adj)[v] + {u}]
    {
      if isRed {
        red := red[u := red[u] + {v}];
        red := red[v := red[v] + {u}];
      } else {
        adj := adj[u := adj[u] + {v}];
        adj := adj[v := adj[v] + {u}];
      }
    }

    /** `erase_edge(u, v, red)`: removes the edge from both rows of one colour. */
    method EraseEdge(u: int, v: int, isRed: bool)
      requires Sized() && 0 <= u < n && 0 <= v < n && u != v
      modifies this
      ensures Sized() && mask == old(mask) && key == old(key)
      ensures fullTww == old(fullTww) && curTww == old(curTww)
      ensures isRed ==> adj == old(adj) && red == old(red)[u := old(red)[u] - {v}][v := old(red)[v] - {u}]
      ensures !isRed ==> red == old(red) && adj == old(adj)[u := old(adj)[u] - {v}][v := old(adj)[v] - {u}]
    {
      if isRed {
        red := red[u := red[u] - {v}];
        red := red[v := red[v] - {u}];
      } else {
        adj := adj[u := adj[u] - {v}];
        adj := adj[v := adj[v] - {u}];
      }
    }

    /** `erase(u)`: every neighbour forgets `u`, and `u` leaves the mask. */
    method Erase(u: int)
      requires Sized() && 0 <= u < n
      modifies this
      ensures Sized() && State() == Erased(old(State()), u)
      ensures key == old(key) && fullTww == old(fullTww) && curTww == old(curTww)
    {
      var black, redRow := adj[u], red[u];
      var a, r := adj, red;
      for w := 0 to n
        invariant |a| == n
        invariant forall x :: 0 <= x < n ==> a[x] == (if x < w && x in black then adj[x] - {u} else adj[x])
      {
        if w in black {
          a := a[w := a[w] - {u}];
        }
      }
      for w := 0 to n
        invariant |r| == n
        invariant forall x :: 0 <= x < n ==> r[x] == (if x < w && x in redRow then red[x] - {u} else red[x])
      {
        if w in redRow {
          r := r[w := r[w] - {u}];
        }
      }
      adj, red, mask := a, r, mask - {u};
    }

    /**
     * `update_key(u, v)`: with `cu < cv` the two labels (which must
     * differ), every vertex labelled `cv` is relabelled `cu`.
     */
    method UpdateKey(u: int, v: int)
      requires Sized() && 0 <= u < n && 0 <= v < n && key[u] != key[v]
      modifies this
      ensures Sized() && adj == old(adj) && red == old(red) && mask == old(mask)
      ensures fullTww == old(fullTww) && curTww == old(curTww)
      ensures key == Relabelled(old(key), Min(old(key[u]), old(key[v])), Max(old(key[u]), old(key[v])))
    {
      var cu, cv := key[u], key[v];
      if cu > cv {
        cu, cv := cv, cu;
      }
      var k := key;
      for i := 0 to n
        invariant |k| == n
        invariant forall j :: 0 <= j < n ==> k[j] == (if j < i && key[j] == cv then cu else key[j])
      {
        if k[i] == cv {
          k := k[i := cu];
        }
      }
      key := k;
    }

    /**
     * `compute_width()`: raises `cur_tww` to the largest red degree of an
     * active vertex, then `full_tww` to `cur_tww`.
     */
    method ComputeWidth()
      requires Valid()
      modifies this
      ensures Valid() && State() == old(State()) && key == old(key)
      ensures IsMaxRedDeg(curTww, old(curTww), red, mask)
      ensures fullTww == Max(old(fullTww), curTww)
    {
      var cur := MaxRedDeg(curTww, mask);
      MaxRedDegBelow(State(), cur, curTww, mask);
      curTww, fullTww := cur, Max(fullTww, cur);
    }

    /**
     * The loop `compute_width` runs over the mask and `merge` over the new
     * red row of `u`: the larger of `base` and the red degrees over `s`.
     */
    method MaxRedDeg(base: int, s: set<int>) returns (x: int)
      requires Sized()
      ensures IsMaxRedDeg(x, base, red, s)
    {
      x := base;
      for w := 0 to n
        invariant x >= base
        invariant forall y :: y in s && 0 <= y < w ==> x >= |red[y]|
        invariant x == base || exists y :: y in s && 0 <= y < w && x == |red[y]|
      {
        if w in s {
          x := Max(x, |red[w]|);
        }
      }
    }

    /** The loop of `merge` that turns each edge from the new red row of `u` red. */
    method RedirectToward(u: int, hint: set<int>)
      requires Sized() && 0 <= u < n && u !in hint
      modifies this
      ensures Sized() && mask == old(mask) && key == old(key)
      ensures fullTww == old(fullTww) && curTww == old(curTww)
      ensures forall x :: 0 <= x < n ==>
        adj[x] == (if x in hint then old(adj[x]) - {u} else old(adj[x])) &&
        red[x] == (if x in hint then old(red[x]) + {u} else old(red[x]))
    {
      var a, r := adj, red;
      for w := 0 to n
        invariant |a| == n && |r| == n
        invariant forall x :: 0 <= x < n ==>
          a[x] == (if x < w && x in hint then adj[x] - {u} else adj[x]) &&
          r[x] == (if x < w && x in hint then red[x] + {u} else red[x])
      {
        if w in hint {
          r := r[w := r[w] + {u}];
          a := a[w := a[w] - {u}];
        }
      }
      adj, red := a, r;
    }

    /**
     * `merge(u, v, hint)` with `hint = merge_cost(u, v)`, the only hint
     * any caller passes: the rows and mask become `Merged`, `cur_tww`
     * rises to the red degrees of `u` and of its red neighbours,
     * `full_tww` to `cur_tww`, and the label classes of `u` and `v` join.
     */
    method Merge(u: int, v: int, hint: set<int>)
      requires Valid() && u in mask && v in mask && u != v
      requires hint == Trigraph.MergeCost(State(), u, v)
      modifies this
      ensures Valid()
      ensures State() == Merged(old(State()), u, v)
      ensures IsMaxRedDeg(curTww, Max(old(curTww), |red[u]|), red, red[u])
      ensures fullTww == Max(old(fullTww), curTww)
      ensures key == Relabelled(old(key), Min(old(key[u]), old(key[v])), Max(old(key[u]), old(key[v])))
    {
      ghost var g0 := State();
      MergedWellFormed(g0, u, v);
      MergeRows(u, v, hint);
      assert mask + {v} == g0.mask;
      FinishMerge(u, v);
    }

    /**
     * The end of `merge`, once the rows are merged and `v` is inactive:
     * the width update over the new red row of `u`, then `update_key`.
     */
    method FinishMerge(u: int, v: int)
      requires Sized() && WellFormed(State()) && u in mask && 0 <= v < n && v !in mask
      requires KeysDistinct(key, mask + {v}) && 0 <= curTww <= n
      modifies this
      ensures Valid() && State() == old(State())
      ensures IsMaxRedDeg(curTww, Max(old(curTww), |red[u]|), red, red[u])
      ensures fullTww == Max(old(fullTww), curTww)
      ensures key == Relabelled(old(key), Min(old(key[u]), old(key[v])), Max(old(key[u]), old(key[v])))
    {
      KeysAfterMerge(key, mask + {v}, u, v);
      assert mask + {v} - {v} == mask;
      var cur := MaxRedDeg(Max(curTww, |red[u]|), red[u]);
      SubsetBelow(red[u], n);
      MaxRedDegBelow(State(), cur, Max(curTww, |red[u]|), red[u]);
      curTww, fullTww := cur, Max(fullTww, cur);
      UpdateKey(u, v);
    }

    /** The row updates of `merge`: everything before the width update. */
    method MergeRows(u: int, v: int, hint: set<int>)
      requires Valid() && u in mask && v in mask && u != v
      requires hint == Trigraph.MergeCost(State(), u, v)
      modifies this
      ensures Sized() && State() == Merged(old(State()), u, v)
      ensures key == old(key) && fullTww == old(fullTww) && curTww == old(curTww)
    {
      ghost var g0 := State();
      EraseEdge(u, v, false);
      EraseEdge(u, v, true);
      red := red[u := hint];
      adj := adj[u := adj[u] * adj[v]];
      ghost var a1, r1 := adj, red;
      RedirectToward(u, hint);
      ghost var g2 := State();
      assert g2.adj[v] == g0.adj[v] - {u} && g2.red[v] == g0.red[v] - {u};
      Erase(v);
      var m := Merged(g0, u, v);
      assert adj == m.adj;
      assert red == m.red;
    }

    /** `merge_nohint(u, v)`: `merge` with the hint `merge_cost(u, v)`. */
    method MergeNoHint(u: int, v: int)
      requires Valid() && u in mask && v in mask && u != v
      modifies this
      ensures Valid()
      ensures State() == Merged(old(State()), u, v)
      ensures IsMaxRedDeg(curTww, Max(old(curTww), |red[u]|), red, red[u])
      ensures fullTww == Max(old(fullTww), curTww)
      ensures key == Relabelled(old(key), Min(old(key[u]), old(key[v])), Max(old(key[u]), old(key[v])))
    {
      var hint := MergeCost(u, v);
      Merge(u, v, hint);
    }

    /**
     * `contract(u, v)`: a copy with `cur_tww` reset to 0 in which `v` is
     * merged into `u`; the receiver is left as it was, and the copy has
     * one active vertex less.
     */
    method Contract(u: int, v: int) returns (res: BitGraph)
      requires Valid() && u in mask && v in mask && u != v
      ensures fresh(res) && res.Valid() && res.n == n
      ensures res.State() == Merged(State(), u, v)
      ensures |res.mask| == |mask| - 1
      ensures IsMaxRedDeg(res.curTww, |res.red[u]|, res.red, res.red[u])
      ensures res.fullTww == Max(fullTww, res.curTww)
      ensures res.key == Relabelled(key, Min(key[u], key[v]), Max(key[u], key[v]))
    {
      res := new BitGraph.Copy(this);
      res.curTww := 0;
      res.MergeNoHint(u, v);
    }

    /**
     * `subgraph(h)` for a set `h` of active vertices: a copy whose mask is
     * `h` and whose rows are cut down to `h`, with `cur_tww` recomputed
     * from 0 over `h` and `full_tww` raised to it.
     */
    method Subgraph(h: set<int>) returns (res: BitGraph)
      requires Valid() && h <= mask
      ensures fresh(res) && res.Valid() && res.n == n
      ensures res.mask == h && res.key == key
      ensures forall i :: 0 <= i < n ==> res.adj[i] == adj[i] * h && res.red[i] == red[i] * h
      ensures IsMaxRedDeg(res.curTww, 0, res.red, h)
      ensures res.fullTww == Max(fullTww, res.curTww)
    {
      res := new BitGraph.Copy(this);
      res.mask := h;
      for i := 0 to n
        invariant res.Sized() && res.mask == h && res.key == key && res.red == red
        invariant res.fullTww == fullTww && res.n == n
        invariant forall j :: 0 <= j < n ==> res.adj[j] == (if j < i then adj[j] * h else adj[j])
      {
        res.adj := res.adj[i := res.adj[i] * h];
      }
      for i := 0 to n
        invariant res.Sized() && res.mask == h && res.key == key
        invariant res.fullTww == fullTww && res.n == n
        invariant forall j :: 0 <= j < n ==> res.adj[j] == adj[j] * h
        invariant forall j :: 0 <= j < n ==> res.red[j] == (if j < i then red[j] * h else red[j])
      {
        res.red := res.red[i := res.red[i] * h];
      }
      res.curTww := 0;
      assert res.Valid();
      res.ComputeWidth();
    }
  }

  /** A largest red degree over active vertices is at most the number of vertices. */
  lemma MaxRedDegBelow(s: Shape, x: int, base: int, over: set<int>)
    requires WellFormed(s) && over <= s.mask && 0 <= base <= |s.adj|
    requires IsMaxRedDeg(x, base, s.red, over)
    ensures 0 <= x <= |s.adj|
  {
    if x != base {
      var w :| w in over && 0 <= w < |s.red| && x == |s.red[w]|;
      SubsetBelow(s.red[w], |s.adj|);
    }
  }

  /**
   * Labels are `char` values, one per vertex, and active vertices carry
   * pairwise distinct labels.
   */
  ghost predicate KeysDistinct(key: seq<int>, mask: set<int>)
  {
    && (forall i :: 0 <= i < |key| ==> -128 <= key[i] < 128)
    && (forall x :: x in mask ==> 0 <= x < |key|)
    && (forall x, y :: x in mask && y in mask && x != y ==> key[x] != key[y])
  }

  /**
   * After `v` merges into `u` (or is dropped for `u`), relabelling the
   * larger of their two labels to the smaller keeps labels `char` values
   * and keeps the labels of the remaining active vertices distinct.
   */
  lemma KeysAfterMerge(key: seq<int>, mask: set<int>, u: int, v: int)
    requires KeysDistinct(key, mask) && u in mask && v in mask && u != v
    ensures KeysDistinct(Relabelled(key, Min(key[u], key[v]), Max(key[u], key[v])), mask - {v})
  {
    var lo, hi := Min(key[u], key[v]), Max(key[u], key[v]);
    forall x, y | x in mask - {v} && y in mask - {v} && x != y
      ensures Relabelled(key, lo, hi)[x] != Relabelled(key, lo, hi)[y]
    {
      RelabelledJoins(key, lo, hi, x, y);
    }
  }
}
