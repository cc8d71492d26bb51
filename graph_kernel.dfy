/**
 * Twin reduction on the sparse graph (`Graph::merge_twins`, which is all
 * `kernelize_safe` does). Every active vertex is filed in a trie under
 * its sorted black neighbourhood (with the vertex itself for true twins,
 * without it for false twins), then every trie node merges its later
 * vertices into its first one with `merge_nohint`. Passes repeat until
 * one removes no vertex.
 *
 * The trie is modelled by the map from a key to the vertices filed under
 * it, in filing order. Its nodes are visited through `unordered_map`s,
 * in an unspecified order; the model takes the groups in any order, so
 * its proofs hold for every order the trie can produce.
 */
module GraphKernel {
  import opened Common
  import opened Trigraph
  import opened Graphs

  /** A sorted vector without repeats. */
  predicate Increasing(s: seq<int>)
  {
    forall i, j :: 0 <= i < j < |s| ==> s[i] < s[j]
  }

  /** A vector without repeats. */
  predicate Distinct(s: seq<int>)
  {
    forall i, j :: 0 <= i < j < |s| ==> s[i] != s[j]
  }

  /** The elements of a vector. */
  function Elems(s: seq<int>): set<int>
  {
    set x | x in s
  }

  /** The head of a sorted vector is its least element, and the tail holds the rest. */
  lemma IncreasingHead(a: seq<int>)
    requires Increasing(a) && a != []
    ensures forall x :: x in Elems(a) ==> a[0] <= x
    ensures Elems(a[1..]) == Elems(a) - {a[0]} && Increasing(a[1..])
  {
    forall x | x in Elems(a)
      ensures a[0] <= x
    {
      var k :| 0 <= k < |a| && a[k] == x;
    }
    assert Elems(a) == {a[0]} + Elems(a[1..]);
    forall i | 1 <= i < |a|
      ensures a[i] != a[0]
    {
    }
  }

  /**
   * Two sorted vectors without repeats that hold the same elements are
   * equal: a set has exactly one trie key.
   */
  lemma {:induction false} IncreasingUnique(a: seq<int>, b: seq<int>)
    requires Increasing(a) && Increasing(b) && Elems(a) == Elems(b)
    ensures a == b
  {
    DistinctCard(a);
    DistinctCard(b);
    if a != [] {
      IncreasingHead(a);
      IncreasingHead(b);
      assert a[0] in Elems(b) && b[0] in Elems(a);
      IncreasingUnique(a[1..], b[1..]);
      assert a == [a[0]] + a[1..] && b == [b[0]] + b[1..];
    }
  }

  /** A vector without repeats has as many elements as entries. */
  lemma {:induction false} DistinctCard(s: seq<int>)
    requires Distinct(s)
    ensures |Elems(s)| == |s|
  {
    if s != [] {
      var t := s[..|s| - 1];
      DistinctCard(t);
      assert Elems(s) == Elems(t) + {s[|s| - 1]};
      assert s[|s| - 1] !in Elems(t);
    }
  }

  /** Pushing a new vertex keeps a vector free of repeats and adds it to the elements. */
  lemma PushDistinct(v: seq<int>, x: int)
    requires Distinct(v) && x !in Elems(v)
    ensures Distinct(v + [x]) && Elems(v + [x]) == Elems(v) + {x}
  {
    assert forall i :: 0 <= i < |v| ==> v[i] in Elems(v);
  }

  /**
   * Placing `x` at position `j` of a sorted vector, after the smaller
   * entries and before the larger ones, keeps it sorted.
   */
  lemma PlaceSorted(b: seq<int>, x: int, j: int)
    requires Increasing(b) && 0 <= j <= |b|
    requires forall k :: 0 <= k < j ==> b[k] < x
    requires forall k :: j <= k < |b| ==> x < b[k]
    ensures Increasing(b[..j] + [x] + b[j..]) && Elems(b[..j] + [x] + b[j..]) == Elems(b) + {x}
  {
    var b' := b[..j] + [x] + b[j..];
    assert forall k :: 0 <= k < |b'| ==> b'[k] == (if k < j then b[k] else if k == j then x else b[k - 1]);
    assert b == b[..j] + b[j..];
  }

  /**
   * `std::sort` on a vector of distinct vertices, as an insertion sort:
   * the result is sorted without repeats and holds the same vertices.
   */
  method Sort(a: seq<int>) returns (b: seq<int>)
    requires Distinct(a)
    ensures Increasing(b) && Elems(b) == Elems(a)
  {
    b := [];
    for i := 0 to |a|
      invariant Increasing(b) && Elems(b) == Elems(a[..i])
    {
      var x := a[i];
      assert x !in Elems(a[..i]);
      var j := 0;
      while j < |b| && b[j] < x
        invariant 0 <= j <= |b| && forall k :: 0 <= k < j ==> b[k] < x
      {
        j := j + 1;
      }
      if j < |b| {
        assert b[j] in Elems(b);
      }
      PlaceSorted(b, x, j);
      assert a[..i + 1] == a[..i] + [x];
      b := b[..j] + [x] + b[j..];
    }
    assert a[..|a|] == a;
  }

  /** The set a vertex is filed under: its black row, with itself for true twins. */
  function KeySet(g: Shape, u: int, closed: bool): set<int>
    requires 0 <= u < |g.adj|
  {
    if closed then g.adj[u] + {u} else g.adj[u]
  }

  /**
   * The trie key of `u`: the vector built from `adj[u]` in the set's own
   * order, with `u` pushed for true twins, then sorted.
   */
  method KeyOf(g: Graph, u: int, closed: bool) returns (nb: seq<int>)
    requires g.Valid() && u in g.mask
    ensures Increasing(nb) && Elems(nb) == KeySet(g.State(), u, closed)
  {
    var v: seq<int> := [];
    var todo := g.adj[u];
    while todo != {}
      invariant todo <= g.adj[u] && Distinct(v) && Elems(v) == g.adj[u] - todo
      decreases |todo|
    {
      Nonempty(todo);
      var x :| x in todo;
      PushDistinct(v, x);
      v := v + [x];
      todo := todo - {x};
    }
    if closed {
      PushDistinct(v, u);
      v := v + [u];
    }
    nb := Sort(v);
  }

  /** The trie: each key reached maps to the vertices filed at that node, in filing order. */
  type Trie = map<seq<int>, seq<int>>

  /** `TrieNode::insert`: walk down the key and push `u` on that node's vertices. */
  function Insert(t: Trie, u: int, key: seq<int>): (r: Trie)
    ensures r.Keys == t.Keys + {key}
    ensures forall k :: k in t && k != key ==> r[k] == t[k]
  {
    t[key := (if key in t then t[key] else []) + [u]]
  }

  /**
   * The trie files exactly the vertices of `done`: each vertex sits under
   * a sorted key holding its `KeySet` in `g`, at the node `home` names,
   * and no node lists a vertex twice.
   */
  ghost predicate Filed(t: Trie, g: Shape, closed: bool, done: set<int>, home: map<int, seq<int>>)
  {
    && (forall k :: k in t ==> Increasing(k) && Distinct(t[k]))
    && (forall k, x :: k in t && x in t[k] ==> x in done && 0 <= x < |g.adj| && Elems(k) == KeySet(g, x, closed))
    && (forall x :: x in done ==> x in home && home[x] in t && x in t[home[x]])
  }

  /** Filing one more vertex under its key. */
  lemma FileOne(t: Trie, g: Shape, closed: bool, done: set<int>, home: map<int, seq<int>>, u: int, key: seq<int>)
    requires Filed(t, g, closed, done, home) && u !in done && 0 <= u < |g.adj|
    requires Increasing(key) && Elems(key) == KeySet(g, u, closed)
    ensures Filed(Insert(t, u, key), g, closed, done + {u}, home[u := key])
  {
    var r := Insert(t, u, key);
    var old_ := if key in t then t[key] else [];
    assert u !in Elems(old_);
    PushDistinct(old_, u);
    assert r[key] == old_ + [u];
    forall k, x | k in r && x in r[k]
      ensures x in done + {u} && 0 <= x < |g.adj| && Elems(k) == KeySet(g, x, closed)
    {
      if k == key && (key !in t || x !in t[key]) {
        assert x == u;
      }
    }
    forall k | k in r
      ensures Increasing(k) && Distinct(r[k])
    {
    }
    forall x | x in done + {u}
      ensures x in home[u := key] && home[u := key][x] in r && x in r[home[u := key][x]]
    {
      if x != u {
        assert home[x] in t && x in t[home[x]];
        if home[x] == key {
          assert x in r[key];
        }
      }
    }
    var h := home[u := key];
    var d := done + {u};
    assert forall k :: k in r ==> Increasing(k) && Distinct(r[k]);
    assert forall k, x :: k in r && x in r[k] ==> x in d && 0 <= x < |g.adj| && Elems(k) == KeySet(g, x, closed);
    assert forall x :: x in d ==> x in h && h[x] in r && x in r[h[x]];
    assert Filed(r, g, closed, d, h);
  }

  /**
   * The first loop of a `merge_twins` pass: every active vertex inserted
   * under its key.
   */
  method BuildTrie(g: Graph, closed: bool) returns (t: Trie, ghost home: map<int, seq<int>>)
    requires g.Valid()
    ensures Filed(t, g.State(), closed, g.mask, home)
  {
    t := map[];
    home := map[];
    var todo := g.mask;
    while todo != {}
      invariant todo <= g.mask && Filed(t, g.State(), closed, g.mask - todo, home)
      decreases |todo|
    {
      Nonempty(todo);
      var u :| u in todo;
      var key := KeyOf(g, u, closed);
      FileOne(t, g.State(), closed, g.mask - todo, home, u, key);
      t := Insert(t, u, key);
      home := home[u := key];
      assert g.mask - (todo - {u}) == (g.mask - todo) + {u};
      todo := todo - {u};
    }
    assert g.mask - todo == g.mask;
  }

  /**
   * Two filed vertices share a trie node exactly when they are filed
   * under the same set: sorting gives each set one key.
   */
  lemma SameNodeIffSameKey(t: Trie, g: Shape, closed: bool, done: set<int>, home: map<int, seq<int>>, x: int, y: int)
    requires Filed(t, g, closed, done, home) && x in done && y in done
    ensures x in t[home[y]] <==> KeySet(g, x, closed) == KeySet(g, y, closed)
  {
    assert Elems(home[y]) == KeySet(g, y, closed);
    if KeySet(g, x, closed) == KeySet(g, y, closed) {
      assert Elems(home[x]) == KeySet(g, x, closed);
      IncreasingUnique(home[x], home[y]);
    }
  }

  /** No vertex sits at two nodes. */
  lemma FiledDisjoint(t: Trie, g: Shape, closed: bool, done: set<int>, home: map<int, seq<int>>)
    requires Filed(t, g, closed, done, home)
    ensures forall k1, k2, x :: k1 in t && k2 in t && x in t[k1] && x in t[k2] ==> k1 == k2
  {
    forall k1, k2, x | k1 in t && k2 in t && x in t[k1] && x in t[k2]
      ensures k1 == k2
    {
      assert 0 <= x < |g.adj| && Elems(k1) == KeySet(g, x, closed) == Elems(k2);
      IncreasingUnique(k1, k2);
    }
  }

  /** No active vertex of `g` has a black row that, apart from the pair itself, equals another's. */
  ghost predicate NoTwins(g: Shape, closed: bool)
    requires forall u :: u in g.mask ==> 0 <= u < |g.adj|
  {
    forall x, y :: x in g.mask && y in g.mask && x != y ==> KeySet(g, x, closed) != KeySet(g, y, closed)
  }

  /**
   * Equal keys in a well-formed trigraph: true twins (equal closed rows)
   * and false twins (equal open rows) have the same black neighbours
   * apart from each other.
   */
  lemma KeysGiveTwins(g: Shape, closed: bool, x: int, y: int)
    requires WellFormed(g) && x in g.mask && y in g.mask && x != y
    requires KeySet(g, x, closed) == KeySet(g, y, closed)
    ensures g.adj[x] - {y} == g.adj[y] - {x}
  {
    assert x !in g.adj[x] && y !in g.adj[y];
    if closed {
      assert y in g.adj[x] + {x} && x in g.adj[y] + {y};
      assert g.adj[x] - {y} == (g.adj[x] + {x}) - {x, y};
      assert g.adj[y] - {x} == (g.adj[y] + {y}) - {x, y};
    }
  }

  /** No active vertex has a red neighbour. */
  ghost predicate RedFree(g: Shape)
  {
    forall w :: w in g.mask ==> 0 <= w < |g.red| && g.red[w] == {}
  }

  /**
   * `g` is `g0` with only the vertices of `g.mask` kept: every black row
   * is the row of `g0` cut down to the remaining vertices.
   */
  ghost predicate Induced(g0: Shape, g: Shape)
  {
    && g.mask <= g0.mask
    && |g.adj| == |g0.adj|
    && (forall w :: w in g.mask ==> 0 <= w < |g.adj| && g.adj[w] == g0.adj[w] * g.mask)
  }

  /** Deleting more vertices of an induced subgraph gives an induced subgraph. */
  lemma InducedTrans(g0: Shape, g1: Shape, g2: Shape)
    requires Induced(g0, g1) && Induced(g1, g2)
    ensures Induced(g0, g2)
  {
    forall w | w in g2.mask
      ensures g2.adj[w] == g0.adj[w] * g2.mask
    {
      assert g2.adj[w] == (g0.adj[w] * g1.mask) * g2.mask;
    }
  }

  /**
   * The vertices of a group are pairwise twins in `g0`: the same black
   * neighbours apart from each other.
   */
  ghost predicate GroupTwins(g0: Shape, twins: seq<int>)
  {
    forall x, y :: x in twins && y in twins && x != y ==>
      0 <= x < |g0.adj| && 0 <= y < |g0.adj| && g0.adj[x] - {y} == g0.adj[y] - {x}
  }

  /**
   * Merging two twins of `g0` that remain in a red-free induced subgraph
   * of `g0` creates no red edge and only deletes the merged vertex.
   */
  lemma TwinMergeInduced(g0: Shape, g: Shape, x: int, y: int)
    requires WellFormed(g) && Induced(g0, g) && RedFree(g)
    requires x in g.mask && y in g.mask && x != y
    requires 0 <= x < |g0.adj| && 0 <= y < |g0.adj| && g0.adj[x] - {y} == g0.adj[y] - {x}
    ensures Induced(g0, Merged(g, x, y)) && RedFree(Merged(g, x, y))
  {
    assert g.adj[x] - {y} == (g0.adj[x] - {y}) * g.mask;
    assert g.adj[y] - {x} == (g0.adj[y] - {x}) * g.mask;
    TwinsMergeWithoutRed(g, x, y);
    MergedActive(g, x, y);
    var r := Merged(g, x, y);
    forall w | w in r.mask
      ensures r.adj[w] == g0.adj[w] * r.mask
    {
      if w == x {
        assert r.adj[x] == (g.adj[x] * g.adj[y]) - {x, y};
        assert g.adj[x] * g.adj[y] - {x, y} == g.adj[x] - {y};
      }
    }
  }

  /** The set of vertices contracted away by a stretch of the log. */
  function Seconds(s: ContrSeq): set<int>
  {
    set i | 0 <= i < |s| :: s[i].1
  }

  /** A stretch of the log holds one pair per vertex of `removed`, naming it second. */
  ghost predicate LogsRemoved(added: ContrSeq, removed: set<int>)
  {
    |added| == |removed| && Seconds(added) == removed
  }

  /** Logs of disjoint removals concatenate. */
  lemma LogsJoin(a1: ContrSeq, r1: set<int>, a2: ContrSeq, r2: set<int>)
    requires LogsRemoved(a1, r1) && LogsRemoved(a2, r2) && r1 * r2 == {}
    ensures LogsRemoved(a1 + a2, r1 + r2)
  {
    var s := a1 + a2;
    forall x | x in Seconds(s)
      ensures x in r1 + r2
    {
      var i :| 0 <= i < |s| && s[i].1 == x;
      if i >= |a1| {
        assert a2[i - |a1|].1 == x;
      }
    }
    forall x | x in r1 + r2
      ensures x in Seconds(s)
    {
      if x in r1 {
        var i :| 0 <= i < |a1| && a1[i].1 == x;
        assert s[i].1 == x;
      } else {
        var i :| 0 <= i < |a2| && a2[i].1 == x;
        assert s[|a1| + i].1 == x;
      }
    }
  }

  /** The vertices a node merges away: all but its first. */
  function Tail(twins: seq<int>): set<int>
  {
    if |twins| <= 1 then {} else Elems(twins[1..])
  }

  /** The pairs a node logs: `(twins[0], twins[i])` for each later vertex. */
  function GroupLog(twins: seq<int>): (r: ContrSeq)
    ensures |r| == if |twins| <= 1 then 0 else |twins| - 1
  {
    if |twins| <= 1 then [] else seq(|twins| - 1, i requires 0 <= i < |twins| - 1 => (twins[0], twins[i + 1]))
  }

  /** One more merge of a node: the log and the merged set grow by the next vertex. */
  lemma GroupStep(twins: seq<int>, i: int)
    requires 1 <= i < |twins|
    ensures GroupLog(twins[..i + 1]) == GroupLog(twins[..i]) + [(twins[0], twins[i])]
    ensures Tail(twins[..i + 1]) == Tail(twins[..i]) + {twins[i]}
  {
    assert twins[..i + 1][1..] == twins[..i][1..] + [twins[i]] by {
      if i > 1 {
        assert twins[..i][1..] == twins[1..i];
      }
    }
  }

  /** A node's pairs log exactly the vertices it merges away. */
  lemma GroupLogged(twins: seq<int>)
    requires Distinct(twins)
    ensures LogsRemoved(GroupLog(twins), Tail(twins))
  {
    if |twins| > 1 {
      var r := GroupLog(twins);
      DistinctCard(twins[1..]);
      forall x | x in Seconds(r)
        ensures x in Tail(twins)
      {
        var i :| 0 <= i < |r| && r[i].1 == x;
        assert twins[1..][i] == x;
      }
      forall x | x in Tail(twins)
        ensures x in Seconds(r)
      {
        var i :| 0 <= i < |twins[1..]| && twins[1..][i] == x;
        assert r[i].1 == x;
      }
    }
  }

  /**
   * `TrieNode::merge_twins` on one node: merge `twins[i]` into `twins[0]`
   * for i = 1, 2, … with `merge_nohint`. The later vertices leave the
   * graph, the log gains one pair for each, and the width never drops.
   * When the node's vertices are twins of the graph `g0` the pass started
   * from and the graph is a red-free induced subgraph of `g0`, it stays
   * one and the width stays as it was.
   */
  method MergeGroup(g: Graph, twins: seq<int>, ghost g0: Shape)
    requires g.Valid() && Distinct(twins) && forall i :: 0 <= i < |twins| ==> twins[i] in g.mask
    modifies g
    ensures g.Valid() && GroupDone(old(g.State()), old(g.sq), old(g.fullTww), g.State(), g.sq, g.fullTww, twins, g0)
  {
    if |twins| == 0 {
      // An inner node of the trie lists no vertex.
      GroupEmpty(g.State(), g.sq, g.fullTww, twins, g0);
      return;
    }
    ghost var cond := Induced(g0, g.State()) && RedFree(g.State()) && GroupTwins(g0, twins);
    ghost var s0, sq0, f0 := g.State(), g.sq, g.fullTww;
    MergingStart(s0, sq0, f0, twins, g0, cond);
    MergeRest(g, twins, g0, cond, s0, sq0, f0);
    GroupFinished(s0, sq0, f0, g.State(), g.sq, g.fullTww, twins, g0, cond);
  }

  /** The loop of `TrieNode::merge_twins`: merges every later vertex of the node into its first. */
  method MergeRest(g: Graph, twins: seq<int>, ghost g0: Shape, ghost cond: bool, ghost s0: Shape, ghost sq0: ContrSeq, ghost f0: int)
    requires 1 <= |twins| && GroupReady(twins, g0, cond, s0)
    requires Merging(g, twins, 1, g0, cond, s0, sq0, f0)
    modifies g
    ensures Merging(g, twins, |twins|, g0, cond, s0, sq0, f0)
  {
    var i := 1;
    while i < |twins|
      invariant 1 <= i <= |twins| && Merging(g, twins, i, g0, cond, s0, sq0, f0)
      decreases |twins| - i
    {
      MergeNext(g, twins, i, g0, cond, s0, sq0, f0);
      i := i + 1;
    }
  }

  /**
   * What `TrieNode::merge_twins` does on one node, from `s` with log `sq`
   * and width `f` to `r`, `sq'`, `f'`: the node's later vertices leave the
   * active set, the log gains one pair for each, and the width never
   * drops; a node of at most one vertex changes nothing; and when the
   * node's vertices are twins of `g0` and `s` is a red-free induced
   * subgraph of `g0`, so is `r`, with the same width.
   */
  ghost predicate GroupDone(s: Shape, sq: ContrSeq, f: int, r: Shape, sq': ContrSeq, f': int, twins: seq<int>, g0: Shape)
  {
    && r.mask == s.mask - Tail(twins) && sq' == sq + GroupLog(twins) && f' >= f
    && (|twins| <= 1 ==> r == s && f' == f)
    && (Induced(g0, s) && RedFree(s) && GroupTwins(g0, twins) ==> Induced(g0, r) && RedFree(r) && f' == f)
  }

  /** A node without vertices changes nothing. */
  lemma GroupEmpty(s: Shape, sq: ContrSeq, f: int, twins: seq<int>, g0: Shape)
    requires twins == []
    ensures GroupDone(s, sq, f, s, sq, f, twins, g0)
  {
    assert sq + GroupLog(twins) == sq;
  }

  /**
   * The node's vertices are distinct and active in `s0`, and pairwise
   * twins of `g0` when `cond` holds.
   */
  ghost predicate GroupReady(twins: seq<int>, g0: Shape, cond: bool, s0: Shape)
  {
    Distinct(twins) && (forall j :: 0 <= j < |twins| ==> twins[j] in s0.mask) && (cond ==> GroupTwins(g0, twins))
  }

  /** Before the node's loop nothing is merged. */
  lemma MergingStart(s0: Shape, sq0: ContrSeq, f0: int, twins: seq<int>, g0: Shape, cond: bool)
    requires |twins| >= 1 && cond == (Induced(g0, s0) && RedFree(s0) && GroupTwins(g0, twins))
    ensures MergingState(s0, sq0, f0, twins, 1, g0, cond, s0, sq0, f0)
  {
    assert sq0 + GroupLog(twins[..1]) == sq0;
  }

  /** The node's loop, run to its end, has done what `GroupDone` says. */
  lemma GroupFinished(s0: Shape, sq0: ContrSeq, f0: int, r: Shape, sq': ContrSeq, f': int, twins: seq<int>,
                      g0: Shape, cond: bool)
    requires |twins| >= 1 && cond == (Induced(g0, s0) && RedFree(s0) && GroupTwins(g0, twins))
    requires MergingState(r, sq', f', twins, |twins|, g0, cond, s0, sq0, f0)
    ensures GroupDone(s0, sq0, f0, r, sq', f', twins, g0)
  {
    assert twins[..|twins|] == twins;
  }

  /**
   * `TrieNode::merge_twins` on one node after `i` of its vertices: the
   * later ones among them are merged into `twins[0]` and logged.
   */
  ghost predicate Merging(g: Graph, twins: seq<int>, i: int, g0: Shape, cond: bool, s0: Shape, sq0: ContrSeq, f0: int)
    reads g
    requires 1 <= i <= |twins|
  {
    g.Valid() && MergingState(g.State(), g.sq, g.fullTww, twins, i, g0, cond, s0, sq0, f0)
  }

  /** The part of `Merging` about the graph's value, its log and its width. */
  ghost predicate MergingState(s: Shape, sq: ContrSeq, f: int, twins: seq<int>, i: int,
                               g0: Shape, cond: bool, s0: Shape, sq0: ContrSeq, f0: int)
    requires 1 <= i <= |twins|
  {
    && s.mask == s0.mask - Tail(twins[..i]) && sq == sq0 + GroupLog(twins[..i]) && f >= f0
    && (i == 1 ==> s == s0 && f == f0)
    && (cond ==> Induced(g0, s) && RedFree(s) && f == f0)
  }

  /**
   * Merging `twins[i]` into `twins[0]` with `merge_nohint` advances the
   * node's loop by one vertex.
   */
  lemma MergingNext(s: Shape, sq: ContrSeq, f: int, r: Shape, sq': ContrSeq, f': int, twins: seq<int>, i: int,
                    g0: Shape, cond: bool, s0: Shape, sq0: ContrSeq, f0: int)
    requires 1 <= i < |twins| && GroupReady(twins, g0, cond, s0)
    requires WellFormed(s) && MergingState(s, sq, f, twins, i, g0, cond, s0, sq0, f0)
    requires twins[0] in s.mask && twins[i] in s.mask
    requires r == Merged(s, twins[0], twins[i]) && sq' == sq + [(twins[0], twins[i])]
    requires f' >= f && (RedFree(r) && twins[0] in r.mask ==> f' == f)
    ensures MergingState(r, sq', f', twins, i + 1, g0, cond, s0, sq0, f0)
  {
    MergedMask(s, twins[0], twins[i]);
    LogNext(s.mask, r.mask, sq, sq', twins, i, s0.mask, sq0);
    if cond {
      TwinMergeInduced(g0, s, twins[0], twins[i]);
      assert twins[0] in r.mask && r.red[twins[0]] == {};
    }
  }

  /** Merging removes exactly the merged vertex from the active set. */
  lemma MergedMask(s: Shape, u: int, v: int)
    requires Index(s, u) && Index(s, v) && u != v
    ensures Merged(s, u, v).mask == s.mask - {v}
  {
  }

  /** The node's active set and log after one more merge. */
  lemma LogNext(m: set<int>, m': set<int>, sq: ContrSeq, sq': ContrSeq, twins: seq<int>, i: int,
                m0: set<int>, sq0: ContrSeq)
    requires 1 <= i < |twins|
    requires m == m0 - Tail(twins[..i]) && sq == sq0 + GroupLog(twins[..i])
    requires m' == m - {twins[i]} && sq' == sq + [(twins[0], twins[i])]
    ensures m' == m0 - Tail(twins[..i + 1]) && sq' == sq0 + GroupLog(twins[..i + 1])
  {
    GroupStep(twins, i);
  }

  /**
   * The width `merge_nohint` leaves is at least the old one, and equal to
   * it when `u` ends with no red neighbour.
   */
  lemma WidthKept(f': int, f: int, r: Shape, u: int)
    requires 0 <= f && 0 <= u < |r.red| && IsMaxRedDeg(f', Max(f, |r.red[u]|), r.red, r.red[u])
    ensures f' >= f && (RedFree(r) && u in r.mask ==> f' == f)
  {
  }

  /** One iteration of the node's loop: merge `twins[i]` into `twins[0]`. */
  method MergeNext(g: Graph, twins: seq<int>, i: int, ghost g0: Shape, ghost cond: bool,
                   ghost s0: Shape, ghost sq0: ContrSeq, ghost f0: int)
    requires 1 <= i < |twins| && GroupReady(twins, g0, cond, s0)
    requires Merging(g, twins, i, g0, cond, s0, sq0, f0)
    modifies g
    ensures Merging(g, twins, i + 1, g0, cond, s0, sq0, f0)
  {
    assert twins[0] !in Tail(twins[..i]) && twins[i] !in Tail(twins[..i]) by {
      assert forall j :: 1 <= j < i ==> twins[j] != twins[0] && twins[j] != twins[i];
      assert twins[..i][1..] == twins[1..i];
    }
    ghost var s, sq, f := g.State(), g.sq, g.fullTww;
    g.MergeNoHint(twins[0], twins[i]);
    WidthKept(g.fullTww, f, g.State(), twins[0]);
    MergingNext(s, sq, f, g.State(), g.sq, g.fullTww, twins, i, g0, cond, s0, sq0, f0);
  }

  /**
   * The log `sq` continues `sq0` with one pair per vertex that left the
   * active set `m0` to give `m`, naming that vertex second.
   */
  ghost predicate Extends(sq: ContrSeq, sq0: ContrSeq, m: set<int>, m0: set<int>)
  {
    m <= m0 && |sq| >= |sq0| && sq[..|sq0|] == sq0 && LogsRemoved(sq[|sq0|..], m0 - m)
  }

  /** Two stretches of logging make one. */
  lemma ExtendsTrans(sq0: ContrSeq, sq1: ContrSeq, sq2: ContrSeq, m0: set<int>, m1: set<int>, m2: set<int>)
    requires Extends(sq1, sq0, m1, m0) && Extends(sq2, sq1, m2, m1)
    ensures Extends(sq2, sq0, m2, m0)
  {
    assert sq2[..|sq0|] == sq2[..|sq1|][..|sq0|];
    assert sq2[|sq0|..] == sq1[|sq0|..] + sq2[|sq1|..] by {
      assert sq2 == sq2[..|sq1|] + sq2[|sq1|..];
    }
    LogsJoin(sq1[|sq0|..], m0 - m1, sq2[|sq1|..], m1 - m2);
    assert (m0 - m1) + (m1 - m2) == m0 - m2;
  }

  /** Nothing removed and nothing logged. */
  lemma ExtendsNothing(sq: ContrSeq, m: set<int>)
    ensures Extends(sq, sq, m, m)
  {
    assert sq[|sq|..] == [];
    assert Seconds([]) == {};
  }

  /**
   * The nodes of a trie built over the active vertices of a well-formed
   * `g0` hold twins of `g0`, and no vertex sits at two nodes.
   */
  lemma FiledTwins(t: Trie, g0: Shape, closed: bool, home: map<int, seq<int>>)
    requires WellFormed(g0) && Filed(t, g0, closed, g0.mask, home)
    ensures forall k :: k in t ==> GroupTwins(g0, t[k])
    ensures forall k1, k2, x :: k1 in t && k2 in t && x in t[k1] && x in t[k2] ==> k1 == k2
  {
    FiledDisjoint(t, g0, closed, g0.mask, home);
    forall k | k in t
      ensures GroupTwins(g0, t[k])
    {
      forall x, y | x in t[k] && y in t[k] && x != y
        ensures 0 <= x < |g0.adj| && 0 <= y < |g0.adj| && g0.adj[x] - {y} == g0.adj[y] - {x}
      {
        KeysGiveTwins(g0, closed, x, y);
      }
    }
  }

  /**
   * When every node of the trie holds at most one vertex, no two active
   * vertices share a key: `g0` has no twins of that kind.
   */
  lemma SingletonsNoTwins(t: Trie, g0: Shape, closed: bool, home: map<int, seq<int>>)
    requires Filed(t, g0, closed, g0.mask, home)
    requires forall k :: k in t ==> |t[k]| <= 1
    ensures forall u :: u in g0.mask ==> 0 <= u < |g0.adj|
    ensures NoTwins(g0, closed)
  {
    forall u | u in g0.mask
      ensures 0 <= u < |g0.adj|
    {
      assert u in t[home[u]];
    }
    forall x, y | x in g0.mask && y in g0.mask && x != y
      ensures KeySet(g0, x, closed) != KeySet(g0, y, closed)
    {
      SameNodeIffSameKey(t, g0, closed, g0.mask, home, x, y);
      var k := home[y];
      if x in t[k] {
        assert y in t[k];
        assert |t[k]| <= 1;
        var i :| 0 <= i < |t[k]| && t[k][i] == x;
        var j :| 0 <= j < |t[k]| && t[k][j] == y;
        assert false;
      }
    }
  }

  /**
   * The state of `root.merge_twins(*this)` once the nodes outside `todo`
   * are done, `g0` being the graph the trie was built on: the vertices of
   * the remaining nodes are all active; the log records exactly the
   * vertices removed; while nothing is removed the graph is `g0` and every
   * node done held one vertex; and a red-free `g0` leaves a red-free
   * induced subgraph of the same width.
   */
  ghost predicate SweepState(s: Shape, sq: ContrSeq, f: int, t: Trie, todo: set<seq<int>>,
                             g0: Shape, sq0: ContrSeq, f0: int)
  {
    && todo <= t.Keys
    && (forall k, x :: k in todo && x in t[k] ==> x in s.mask)
    && Extends(sq, sq0, s.mask, g0.mask) && f >= f0
    && (s.mask == g0.mask ==> s == g0 && sq == sq0 && f == f0 && forall k :: k in t && k !in todo ==> |t[k]| <= 1)
    && (RedFree(g0) ==> Induced(g0, s) && RedFree(s) && f == f0)
  }

  /** A vertex set `Tail` of a node whose vertices are all active is active. */
  lemma TailActive(twins: seq<int>, m: set<int>)
    requires forall x :: x in twins ==> x in m
    ensures forall x :: x in Tail(twins) ==> x in twins
    ensures Tail(twins) <= m
  {
    forall x | x in Tail(twins)
      ensures x in twins
    {
      var i :| 0 <= i < |twins| - 1 && twins[1..][i] == x;
      assert twins[i + 1] == x;
    }
    forall x | x in Tail(twins)
      ensures x in m
    {
    }
  }

  /** A node with two distinct vertices merges one away. */
  lemma TailNonempty(twins: seq<int>)
    requires Distinct(twins) && |twins| >= 2
    ensures twins[1] in Tail(twins)
  {
    assert twins[1..][0] == twins[1];
  }

  /** The vertices of the nodes still to do stay active while one node merges. */
  lemma SweepActive(m: set<int>, m': set<int>, t: Trie, todo: set<seq<int>>, k: seq<int>)
    requires k in todo && todo <= t.Keys && Distinct(t[k])
    requires forall k1, k2, x :: k1 in t && k2 in t && x in t[k1] && x in t[k2] ==> k1 == k2
    requires forall k, x :: k in todo && x in t[k] ==> x in m
    requires m' == m - Tail(t[k])
    ensures forall k2, x :: k2 in todo - {k} && x in t[k2] ==> x in m'
  {
    var tw := t[k];
    TailActive(tw, m);
    forall k2, x | k2 in todo - {k} && x in t[k2]
      ensures x in m'
    {
      assert x !in tw;
    }
  }

  /** The log after one more node still records exactly the vertices removed. */
  lemma SweepLog(sq: ContrSeq, sq': ContrSeq, m: set<int>, m': set<int>, tw: seq<int>, m0: set<int>, sq0: ContrSeq)
    requires Distinct(tw) && forall x :: x in tw ==> x in m
    requires Extends(sq, sq0, m, m0)
    requires m' == m - Tail(tw) && sq' == sq + GroupLog(tw)
    ensures Extends(sq', sq0, m', m0)
  {
    TailActive(tw, m);
    GroupLogged(tw);
    assert Extends(sq', sq, m', m) by {
      assert sq'[..|sq|] == sq;
      assert sq'[|sq|..] == GroupLog(tw);
      assert m - m' == Tail(tw);
    }
    ExtendsTrans(sq0, sq, sq', m0, m, m');
  }

  /** `TrieNode::merge_twins` on one more node advances the sweep. */
  lemma SweepNext(s: Shape, sq: ContrSeq, f: int, r: Shape, sq': ContrSeq, f': int, t: Trie, todo: set<seq<int>>,
                  k: seq<int>, g0: Shape, sq0: ContrSeq, f0: int)
    requires WellFormed(g0) && k in todo
    requires forall k :: k in t ==> GroupTwins(g0, t[k]) && Distinct(t[k])
    requires forall k1, k2, x :: k1 in t && k2 in t && x in t[k1] && x in t[k2] ==> k1 == k2
    requires SweepState(s, sq, f, t, todo, g0, sq0, f0)
    requires GroupDone(s, sq, f, r, sq', f', t[k], g0)
    ensures SweepState(r, sq', f', t, todo - {k}, g0, sq0, f0)
  {
    var tw := t[k];
    SweepActive(s.mask, r.mask, t, todo, k);
    SweepLog(sq, sq', s.mask, r.mask, tw, g0.mask, sq0);
    if r.mask == g0.mask && |tw| >= 2 {
      TailNonempty(tw);
      assert false;
    }
  }

  /**
   * `root.merge_twins(*this)`: every node of the trie merges its
   * vertices, the nodes taken in any order.
   */
  method Sweep(g: Graph, t: Trie, ghost g0: Shape)
    requires g.Valid() && g.State() == g0 && WellFormed(g0)
    requires forall k, x :: k in t && x in t[k] ==> x in g0.mask
    requires forall k :: k in t ==> GroupTwins(g0, t[k]) && Distinct(t[k])
    requires forall k1, k2, x :: k1 in t && k2 in t && x in t[k1] && x in t[k2] ==> k1 == k2
    modifies g
    ensures g.Valid() && SweepState(g.State(), g.sq, g.fullTww, t, {}, g0, old(g.sq), old(g.fullTww))
  {
    ghost var sq0, f0 := g.sq, g.fullTww;
    var todo := t.Keys;
    ExtendsNothing(sq0, g0.mask);
    while todo != {}
      invariant g.Valid() && SweepState(g.State(), g.sq, g.fullTww, t, todo, g0, sq0, f0)
      decreases |todo|
    {
      var k :| k in todo;
      ghost var s, sq, f := g.State(), g.sq, g.fullTww;
      forall i | 0 <= i < |t[k]|
        ensures t[k][i] in g.mask
      {
        assert t[k][i] in t[k];
      }
      MergeGroup(g, t[k], g0);
      SweepNext(s, sq, f, g.State(), g.sq, g.fullTww, t, todo, k, g0, sq0, f0);
      todo := todo - {k};
    }
  }

  /**
   * One half of a `merge_twins` round: build the trie of true
   * (`closed`) or false twins over the active vertices and merge every
   * node. When no vertex is removed the graph is unchanged and has no
   * twins of that kind.
   */
  method TwinPass(g: Graph, closed: bool)
    requires g.Valid()
    modifies g
    ensures g.Valid() && Extends(g.sq, old(g.sq), g.mask, old(g.mask)) && g.fullTww >= old(g.fullTww)
    ensures g.mask == old(g.mask) ==>
      g.State() == old(g.State()) && g.sq == old(g.sq) && g.fullTww == old(g.fullTww) && NoTwins(g.State(), closed)
    ensures RedFree(old(g.State())) ==>
      Induced(old(g.State()), g.State()) && RedFree(g.State()) && g.fullTww == old(g.fullTww)
  {
    ghost var g0 := g.State();
    var t, home := BuildTrie(g, closed);
    FiledTwins(t, g0, closed, home);
    Sweep(g, t, g0);
    if g.mask == g0.mask {
      SingletonsNoTwins(t, g0, closed, home);
    }
  }

  /** A subset at least as large as its superset is the superset. */
  lemma SubsetSameSize(a: set<int>, b: set<int>)
    requires a <= b && |a| >= |b|
    ensures a == b
  {
    assert |b - a| == |b| - |a|;
  }

  /**
   * `Graph::merge_twins`: rounds of a true-twin pass and a false-twin
   * pass until a round removes no vertex. The active set only shrinks,
   * the log gains one pair per removed vertex, the width never drops,
   * and the final graph has neither true nor false twins. On a red-free
   * graph the result is the subgraph induced by the remaining vertices,
   * still red-free and of the same width.
   */
  method MergeTwins(g: Graph)
    requires g.Valid()
    modifies g
    ensures g.Valid() && Extends(g.sq, old(g.sq), g.mask, old(g.mask)) && g.fullTww >= old(g.fullTww)
    ensures NoTwins(g.State(), true) && NoTwins(g.State(), false)
    ensures RedFree(old(g.State())) ==>
      Induced(old(g.State()), g.State()) && RedFree(g.State()) && g.fullTww == old(g.fullTww)
  {
    ghost var g0, sq0, f0 := g.State(), g.sq, g.fullTww;
    ExtendsNothing(sq0, g0.mask);
    var shrinking := true;
    while shrinking
      invariant g.Valid() && Extends(g.sq, sq0, g.mask, g0.mask) && g.fullTww >= f0
      invariant !shrinking ==> NoTwins(g.State(), true) && NoTwins(g.State(), false)
      invariant RedFree(g0) ==> Induced(g0, g.State()) && RedFree(g.State()) && g.fullTww == f0
      decreases |g.mask| + (if shrinking then 1 else 0)
    {
      var startN := g.ActualN();
      ghost var s1, sq1 := g.State(), g.sq;
      TwinRound(g);
      ExtendsTrans(sq0, sq1, g.sq, g0.mask, s1.mask, g.mask);
      if RedFree(g0) {
        InducedTrans(g0, s1, g.State());
      }
      shrinking := g.ActualN() < startN;
      if !shrinking {
        SubsetSameSize(g.mask, s1.mask);
      }
    }
  }

  /**
   * One round of the loop in `Graph::merge_twins`: a pass on closed
   * neighbourhoods, then one on open ones. A round that removes no vertex
   * leaves a graph without twins of either kind.
   */
  method TwinRound(g: Graph)
    requires g.Valid()
    modifies g
    ensures g.Valid() && Extends(g.sq, old(g.sq), g.mask, old(g.mask)) && g.fullTww >= old(g.fullTww)
    ensures g.mask == old(g.mask) ==> NoTwins(g.State(), true) && NoTwins(g.State(), false)
    ensures RedFree(old(g.State())) ==>
      Induced(old(g.State()), g.State()) && RedFree(g.State()) && g.fullTww == old(g.fullTww)
  {
    ghost var s1, sq1 := g.State(), g.sq;
    TwinPass(g, true);
    ghost var s2, sq2 := g.State(), g.sq;
    TwinPass(g, false);
    ExtendsTrans(sq1, sq2, g.sq, s1.mask, s2.mask, g.mask);
    if RedFree(s1) {
      InducedTrans(s1, s2, g.State());
    }
    if g.mask == s1.mask {
      assert s2.mask == s1.mask;
    }
  }
}
