/**
 * The all-pairs distances of the grid heuristic (`floyd_warshall` and
 * `update_floyd_warshall`) and the `cost` by which it ranks pairs.
 *
 * The matrix is an `n`-by-`n` array relaxed in place, as the source does.
 * Its contents are specified by matrices, given as the entry for each
 * pair of indices: `InitDist` is the starting matrix and `Relaxed` one
 * pass through a vertex `k`. Because the pivot entry `d(k, k)` is never
 * negative, relaxing in place gives the same matrix as relaxing every
 * entry at once from the old values.
 */
module Distances {
  import opened Common
  import opened Trigraph
  import opened BitGraphs

  /**
   * A distance matrix, as the entry for each pair of indices; only the
   * entries of `0..n-1` matter for an `n`-vertex graph.
   */
  type Matrix = (int, int) -> int

  /** Every entry of `0..n-1` lies between 0 and `INFTY`. */
  ghost predicate Bounded(d: Matrix, n: int)
  {
    forall i, j :: 0 <= i < n && 0 <= j < n ==> 0 <= d(i, j) <= INFTY
  }

  /** `d(i, j) == d(j, i)` for all indices of `0..n-1`. */
  ghost predicate Symmetric(d: Matrix, n: int)
  {
    forall i, j :: 0 <= i < n && 0 <= j < n ==> d(i, j) == d(j, i)
  }

  /** No entry of `e` exceeds the same entry of `d`. */
  ghost predicate NoHigher(e: Matrix, d: Matrix, n: int)
  {
    forall i, j :: 0 <= i < n && 0 <= j < n ==> e(i, j) <= d(i, j)
  }

  /** The square array `res` holds the matrix `d`, cell for cell. */
  ghost predicate Holds(res: array2<int>, d: Matrix)
    reads res
  {
    && res.Length0 == res.Length1
    && forall i, j :: 0 <= i < res.Length0 && 0 <= j < res.Length1 ==> res[i, j] == d(i, j)
  }

  // ---------------------------------------------------------------------
  // Walks

  /** `y` is a black or red neighbour of `x`. */
  ghost predicate Adjacent(s: Shape, x: int, y: int)
  {
    Index(s, x) && (y in s.adj[x] || y in s.red[x])
  }

  /** A walk over active vertices, each step along a black or red edge. */
  ghost predicate Walk(s: Shape, w: seq<int>)
  {
    && |w| >= 1
    && (forall i :: 0 <= i < |w| ==> w[i] in s.mask)
    && (forall i :: 0 <= i < |w| - 1 ==> Adjacent(s, w[i], w[i + 1]))
  }

  /** Every vertex strictly inside the walk `w` is in `K`. */
  ghost predicate Inside(w: seq<int>, K: set<int>)
  {
    forall i :: 0 < i < |w| - 1 ==> w[i] in K
  }

  /**
   * `d` bounds the length of every walk of `s` that passes only through
   * `K`: the entry for its two ends is at most its number of steps.
   */
  ghost predicate Complete(s: Shape, d: Matrix, K: set<int>)
  {
    forall w :: Walk(s, w) && Inside(w, K) ==> d(w[0], w[|w| - 1]) <= |w| - 1
  }

  // ---------------------------------------------------------------------
  // The matrices

  /**
   * The starting entry for `(i, j)`: 1 when `j` is a black or red
   * neighbour of the active vertex `i`, else 0 on the diagonal of an active
   * vertex, else `INFTY`.
   */
  function InitAt(s: Shape, i: int, j: int): int
  {
    if i in s.mask && Index(s, i) && (j in s.adj[i] || j in s.red[i]) then 1
    else if i == j && i in s.mask then 0
    else INFTY
  }

  /** The matrix of `InitAt` entries. */
  function InitDist(s: Shape): Matrix
  {
    (i, j) => InitAt(s, i, j)
  }

  /**
   * One relaxation through `k` of the entries between members of `V`,
   * each computed from the old values: `min(d(i, j), d(i, k) + d(k, j))`.
   */
  function Relaxed(d: Matrix, k: int, V: set<int>): Matrix
  {
    (i, j) => if i in V && j in V then Min(d(i, j), d(i, k) + d(k, j)) else d(i, j)
  }

  /** Relaxing through `0, 1, .., K-1` in turn. */
  function RelaxUpTo(d: Matrix, K: nat, V: set<int>): Matrix
  {
    if K == 0 then d else Relaxed(RelaxUpTo(d, K - 1, V), K - 1, V)
  }

  /** Relaxing through the members of `V` below `K`, in ascending order. */
  function RelaxActiveUpTo(d: Matrix, K: nat, V: set<int>): Matrix
  {
    if K == 0 then d
    else if K - 1 in V then Relaxed(RelaxActiveUpTo(d, K - 1, V), K - 1, V)
    else RelaxActiveUpTo(d, K - 1, V)
  }

  /** The members of `V` below `K`. */
  function ActiveBelow(V: set<int>, K: int): (r: set<int>)
    ensures forall x :: x in r <==> x in V && x < K
  {
    set x | x in V && x < K
  }

  /**
   * What `floyd_warshall` computes: the starting matrix relaxed through
   * the indices `0 .. actual_n()-1`, which are the active vertices only
   * when no vertex has been removed.
   */
  function AsWrittenDist(s: Shape): Matrix
  {
    RelaxUpTo(InitDist(s), |s.mask|, s.mask)
  }

  /** The intended matrix: the starting matrix relaxed through every active vertex below `n`. */
  function ShortestDist(s: Shape, n: nat): Matrix
  {
    RelaxActiveUpTo(InitDist(s), n, s.mask)
  }

  // ---------------------------------------------------------------------
  // Facts about the matrices

  /** The starting matrix is bounded by `INFTY`, and symmetric on a well-formed trigraph. */
  lemma InitFacts(s: Shape, n: int)
    requires WellFormed(s)
    ensures Bounded(InitDist(s), n) && Symmetric(InitDist(s), n)
  {
    forall i, j | 0 <= i < n && 0 <= j < n
      ensures InitAt(s, i, j) == InitAt(s, j, i)
    {
      if i in s.mask && (j in s.adj[i] || j in s.red[i]) {
        assert i in s.adj[j] || i in s.red[j];
      }
    }
  }

  /**
   * A vertex reaches itself in 0 steps and a neighbour in 1, so the
   * starting matrix bounds every walk without inner vertices.
   */
  lemma InitComplete(s: Shape)
    requires WellFormed(s)
    ensures Complete(s, InitDist(s), {})
  {
    forall w | Walk(s, w) && Inside(w, {})
      ensures InitAt(s, w[0], w[|w| - 1]) <= |w| - 1
    {
      if |w| > 1 {
        var second := w[1];
        assert |w| == 2;
        assert Adjacent(s, w[0], second);
      }
    }
  }

  /**
   * One relaxation keeps every entry in `0 .. INFTY`, raises none, and
   * keeps a symmetric matrix symmetric.
   */
  lemma RelaxedFacts(d: Matrix, k: int, V: set<int>, n: int)
    requires Bounded(d, n) && 0 <= k < n
    ensures Bounded(Relaxed(d, k, V), n) && NoHigher(Relaxed(d, k, V), d, n)
    ensures Symmetric(d, n) ==> Symmetric(Relaxed(d, k, V), n)
  {
    var r := Relaxed(d, k, V);
    forall i, j | 0 <= i < n && 0 <= j < n
      ensures 0 <= r(i, j) <= d(i, j) <= INFTY
    {
      assert 0 <= d(i, k) && 0 <= d(k, j);
    }
    if Symmetric(d, n) {
      RelaxedSymmetric(d, k, V, n);
    }
  }

  /** One relaxation keeps a symmetric matrix symmetric. */
  lemma RelaxedSymmetric(d: Matrix, k: int, V: set<int>, n: int)
    requires Symmetric(d, n) && 0 <= k < n
    ensures Symmetric(Relaxed(d, k, V), n)
  {
    var r := Relaxed(d, k, V);
    forall i, j | 0 <= i < n && 0 <= j < n
      ensures r(i, j) == r(j, i)
    {
      assert d(i, k) == d(k, i) && d(k, j) == d(j, k);
    }
  }

  /** Bounds and entries that only go down carry over from one relaxation to the next. */
  lemma RelaxedStep(d: Matrix, e: Matrix, k: int, V: set<int>, n: int)
    requires Bounded(d, n) && Bounded(e, n) && NoHigher(e, d, n) && 0 <= k < n
    ensures Bounded(Relaxed(e, k, V), n) && NoHigher(Relaxed(e, k, V), d, n)
  {
    var r := Relaxed(e, k, V);
    forall i, j | 0 <= i < n && 0 <= j < n
      ensures 0 <= r(i, j) <= e(i, j) <= INFTY
    {
      assert 0 <= e(i, k) && 0 <= e(k, j);
    }
  }

  /**
   * Relaxing through `0 .. K-1` keeps entries in `0 .. INFTY`, raises no
   * entry, and keeps a symmetric matrix symmetric.
   */
  lemma RelaxUpToFacts(d: Matrix, K: nat, V: set<int>, n: int)
    requires Bounded(d, n) && K <= n
    ensures Bounded(RelaxUpTo(d, K, V), n) && NoHigher(RelaxUpTo(d, K, V), d, n)
    ensures Symmetric(d, n) ==> Symmetric(RelaxUpTo(d, K, V), n)
  {
    RelaxUpToBounded(d, K, V, n);
    if Symmetric(d, n) {
      RelaxUpToSymmetric(d, K, V, n);
    }
  }

  /** The entry `(i, j)` after relaxing through `0 .. K-1`, from the entries before the last pass. */
  lemma RelaxUpToStep(d: Matrix, K: nat, V: set<int>, i: int, j: int)
    requires K > 0
    ensures var e := RelaxUpTo(d, K - 1, V);
      RelaxUpTo(d, K, V)(i, j) == if i in V && j in V then Min(e(i, j), e(i, K - 1) + e(K - 1, j)) else e(i, j)
  {
  }

  /** The entry `(i, j)` after relaxing through the members of `V` below `K`, when `K - 1` is one of them. */
  lemma RelaxActiveStep(d: Matrix, K: nat, V: set<int>, i: int, j: int)
    requires K > 0 && K - 1 in V
    ensures var e := RelaxActiveUpTo(d, K - 1, V);
      RelaxActiveUpTo(d, K, V)(i, j) == if i in V && j in V then Min(e(i, j), e(i, K - 1) + e(K - 1, j)) else e(i, j)
  {
  }

  /** Relaxing through `0 .. K-1` keeps entries in `0 .. INFTY` and raises none. */
  lemma RelaxUpToBounded(d: Matrix, K: nat, V: set<int>, n: int)
    requires Bounded(d, n) && K <= n
    ensures Bounded(RelaxUpTo(d, K, V), n) && NoHigher(RelaxUpTo(d, K, V), d, n)
  {
    forall i, j | 0 <= i < n && 0 <= j < n
      ensures 0 <= RelaxUpTo(d, K, V)(i, j) <= d(i, j) <= INFTY
    {
      UpToEntryBounded(d, K, V, n, i, j);
    }
  }

  /** The entry `(i, j)` after relaxing through `0 .. K-1` lies between 0 and the starting entry. */
  lemma {:induction false} UpToEntryBounded(d: Matrix, K: nat, V: set<int>, n: int, i: int, j: int)
    requires Bounded(d, n) && K <= n && 0 <= i < n && 0 <= j < n
    ensures 0 <= RelaxUpTo(d, K, V)(i, j) <= d(i, j)
    decreases K
  {
    if K > 0 {
      var e := RelaxUpTo(d, K - 1, V);
      UpToEntryBounded(d, K - 1, V, n, i, j);
      UpToEntryBounded(d, K - 1, V, n, i, K - 1);
      UpToEntryBounded(d, K - 1, V, n, K - 1, j);
      RelaxUpToStep(d, K, V, i, j);
    }
  }

  /** Relaxing through `0 .. K-1` keeps a symmetric matrix symmetric. */
  lemma RelaxUpToSymmetric(d: Matrix, K: nat, V: set<int>, n: int)
    requires Symmetric(d, n) && K <= n
    ensures Symmetric(RelaxUpTo(d, K, V), n)
  {
    forall i, j | 0 <= i < n && 0 <= j < n
      ensures RelaxUpTo(d, K, V)(i, j) == RelaxUpTo(d, K, V)(j, i)
    {
      UpToEntrySymmetric(d, K, V, n, i, j);
    }
  }

  /** The entries `(i, j)` and `(j, i)` stay equal while relaxing through `0 .. K-1`. */
  lemma {:induction false} UpToEntrySymmetric(d: Matrix, K: nat, V: set<int>, n: int, i: int, j: int)
    requires Symmetric(d, n) && K <= n && 0 <= i < n && 0 <= j < n
    ensures RelaxUpTo(d, K, V)(i, j) == RelaxUpTo(d, K, V)(j, i)
    decreases K
  {
    if K > 0 {
      UpToEntrySymmetric(d, K - 1, V, n, i, j);
      UpToEntrySymmetric(d, K - 1, V, n, i, K - 1);
      UpToEntrySymmetric(d, K - 1, V, n, K - 1, j);
      RelaxUpToStep(d, K, V, i, j);
      RelaxUpToStep(d, K, V, j, i);
    }
  }

  /** The same for relaxing through the members of `V` below `K`. */
  lemma RelaxActiveFacts(d: Matrix, K: nat, V: set<int>, n: int)
    requires Bounded(d, n) && K <= n
    ensures Bounded(RelaxActiveUpTo(d, K, V), n) && NoHigher(RelaxActiveUpTo(d, K, V), d, n)
    ensures Symmetric(d, n) ==> Symmetric(RelaxActiveUpTo(d, K, V), n)
  {
    RelaxActiveBounded(d, K, V, n);
    if Symmetric(d, n) {
      RelaxActiveSymmetric(d, K, V, n);
    }
  }

  /** Relaxing through the members of `V` below `K` keeps entries in `0 .. INFTY` and raises none. */
  lemma RelaxActiveBounded(d: Matrix, K: nat, V: set<int>, n: int)
    requires Bounded(d, n) && K <= n
    ensures Bounded(RelaxActiveUpTo(d, K, V), n) && NoHigher(RelaxActiveUpTo(d, K, V), d, n)
  {
    forall i, j | 0 <= i < n && 0 <= j < n
      ensures 0 <= RelaxActiveUpTo(d, K, V)(i, j) <= d(i, j) <= INFTY
    {
      ActiveEntryBounded(d, K, V, n, i, j);
    }
  }

  /** The entry `(i, j)` after relaxing through the members of `V` below `K` lies between 0 and the starting entry. */
  lemma {:induction false} ActiveEntryBounded(d: Matrix, K: nat, V: set<int>, n: int, i: int, j: int)
    requires Bounded(d, n) && K <= n && 0 <= i < n && 0 <= j < n
    ensures 0 <= RelaxActiveUpTo(d, K, V)(i, j) <= d(i, j)
    decreases K
  {
    if K > 0 && K - 1 in V {
      ActiveEntryBounded(d, K - 1, V, n, i, j);
      ActiveEntryBounded(d, K - 1, V, n, i, K - 1);
      ActiveEntryBounded(d, K - 1, V, n, K - 1, j);
      RelaxActiveStep(d, K, V, i, j);
    } else if K > 0 {
      ActiveEntryBounded(d, K - 1, V, n, i, j);
    }
  }

  /** Relaxing through the members of `V` below `K` keeps a symmetric matrix symmetric. */
  lemma RelaxActiveSymmetric(d: Matrix, K: nat, V: set<int>, n: int)
    requires Symmetric(d, n) && K <= n
    ensures Symmetric(RelaxActiveUpTo(d, K, V), n)
  {
    forall i, j | 0 <= i < n && 0 <= j < n
      ensures RelaxActiveUpTo(d, K, V)(i, j) == RelaxActiveUpTo(d, K, V)(j, i)
    {
      ActiveEntrySymmetric(d, K, V, n, i, j);
    }
  }

  /** The entries `(i, j)` and `(j, i)` stay equal while relaxing through the members of `V` below `K`. */
  lemma {:induction false} ActiveEntrySymmetric(d: Matrix, K: nat, V: set<int>, n: int, i: int, j: int)
    requires Symmetric(d, n) && K <= n && 0 <= i < n && 0 <= j < n
    ensures RelaxActiveUpTo(d, K, V)(i, j) == RelaxActiveUpTo(d, K, V)(j, i)
    decreases K
  {
    if K > 0 && K - 1 in V {
      ActiveEntrySymmetric(d, K - 1, V, n, i, j);
      ActiveEntrySymmetric(d, K - 1, V, n, i, K - 1);
      ActiveEntrySymmetric(d, K - 1, V, n, K - 1, j);
      RelaxActiveStep(d, K, V, i, j);
      RelaxActiveStep(d, K, V, j, i);
    } else if K > 0 {
      ActiveEntrySymmetric(d, K - 1, V, n, i, j);
    }
  }

  /** The first position at or after `lo` where `w` holds `k`, given one at `j0`. */
  lemma {:induction false} FirstAt(w: seq<int>, k: int, lo: int, j0: int) returns (i: int)
    requires 0 <= lo <= j0 < |w| && w[j0] == k
    ensures lo <= i <= j0 && w[i] == k && forall j :: lo <= j < i ==> w[j] != k
    decreases j0 - lo
  {
    if w[lo] == k {
      i := lo;
    } else {
      i := FirstAt(w, k, lo + 1, j0);
    }
  }

  /** The last position before `hi` where `w` holds `k`, given one at `j0`. */
  lemma {:induction false} LastAt(w: seq<int>, k: int, hi: int, j0: int) returns (i: int)
    requires 0 <= j0 < hi <= |w| && w[j0] == k
    ensures j0 <= i < hi && w[i] == k && forall j :: i < j < hi ==> w[j] != k
    decreases hi - j0
  {
    if w[hi - 1] == k {
      i := hi - 1;
    } else {
      i := LastAt(w, k, hi - 1, j0);
    }
  }

  /** A stretch of a walk is a walk. */
  lemma SliceWalk(s: Shape, w: seq<int>, i: int, j: int)
    requires Walk(s, w) && 0 <= i < j <= |w|
    ensures Walk(s, w[i..j])
  {
    var p := w[i..j];
    forall t | 0 <= t < |p| - 1
      ensures Adjacent(s, p[t], p[t + 1])
    {
      assert p[t] == w[i + t] && p[t + 1] == w[i + t + 1];
    }
  }

  /**
   * Relaxing through an active `k` extends completeness from walks inside
   * `K` to walks inside `K + {k}`: such a walk is cut at the first and the
   * last inner visit of `k` into two walks inside `K`, and the entry
   * through `k` is at most the sum of their lengths.
   */
  lemma RelaxedComplete(s: Shape, d: Matrix, K: set<int>, k: int)
    requires Complete(s, d, K) && k in s.mask
    ensures Complete(s, Relaxed(d, k, s.mask), K + {k})
  {
    var r := Relaxed(d, k, s.mask);
    forall w | Walk(s, w) && Inside(w, K + {k})
      ensures r(w[0], w[|w| - 1]) <= |w| - 1
    {
      var a, b := w[0], w[|w| - 1];
      if Inside(w, K) {
        assert d(a, b) <= |w| - 1;
      } else {
        CutAtPivot(s, d, K, k, w);
        RelaxedVia(d, k, s.mask, a, b);
      }
    }
  }

  /**
   * A walk inside `K + {k}` that visits `k` inside is cut at its first and
   * last inner visit of `k` into two walks inside `K`, so the entries to
   * and from `k` sum to at most its length.
   */
  lemma CutAtPivot(s: Shape, d: Matrix, K: set<int>, k: int, w: seq<int>)
    requires Complete(s, d, K) && Walk(s, w) && Inside(w, K + {k}) && !Inside(w, K)
    ensures d(w[0], k) + d(k, w[|w| - 1]) <= |w| - 1
  {
    var j0 :| 0 < j0 < |w| - 1 && w[j0] !in K;
    var i := FirstAt(w, k, 1, j0);
    var j := LastAt(w, k, |w| - 1, j0);
    var p, q := w[..i + 1], w[j..];
    SliceWalk(s, w, 0, i + 1);
    SliceWalk(s, w, j, |w|);
    assert Inside(p, K) by {
      forall t | 0 < t < |p| - 1 ensures p[t] in K {
        assert p[t] == w[t] != k;
      }
    }
    assert Inside(q, K) by {
      forall t | 0 < t < |q| - 1 ensures q[t] in K {
        assert q[t] == w[j + t] != k;
      }
    }
    assert d(w[0], k) <= i && d(k, w[|w| - 1]) <= |w| - 1 - j;
  }

  /**
   * After relaxing through the active vertices below `K`, the matrix
   * bounds every walk whose inner vertices are among them.
   */
  lemma {:induction false} RelaxActiveComplete(s: Shape, K: nat)
    requires WellFormed(s)
    ensures Complete(s, RelaxActiveUpTo(InitDist(s), K, s.mask), ActiveBelow(s.mask, K))
    decreases K
  {
    if K == 0 {
      InitComplete(s);
      assert ActiveBelow(s.mask, 0) == {};
    } else {
      RelaxActiveComplete(s, K - 1);
      var e := RelaxActiveUpTo(InitDist(s), K - 1, s.mask);
      if K - 1 in s.mask {
        RelaxedComplete(s, e, ActiveBelow(s.mask, K - 1), K - 1);
        assert ActiveBelow(s.mask, K) == ActiveBelow(s.mask, K - 1) + {K - 1};
      } else {
        assert ActiveBelow(s.mask, K) == ActiveBelow(s.mask, K - 1);
      }
    }
  }

  /**
   * The intended distances bound every walk: two active vertices joined
   * by a walk of `m` steps have an entry of at most `m`.
   */
  lemma ShortestComplete(s: Shape, n: nat)
    requires WellFormed(s) && forall x :: x in s.mask ==> x < n
    ensures Complete(s, ShortestDist(s, n), s.mask)
  {
    RelaxActiveComplete(s, n);
    assert ActiveBelow(s.mask, n) == s.mask;
  }

  /** `w` is a walk from `i` to `j`. */
  ghost predicate WalkBetween(s: Shape, w: seq<int>, i: int, j: int)
  {
    Walk(s, w) && w[0] == i && w[|w| - 1] == j
  }

  /**
   * Every entry of `0..n-1` below `INFTY` is the length of a walk between
   * its two indices.
   */
  ghost predicate Sound(s: Shape, d: Matrix, n: int)
  {
    forall i, j :: 0 <= i < n && 0 <= j < n && d(i, j) < INFTY ==>
      exists w :: WalkBetween(s, w, i, j) && |w| - 1 == d(i, j)
  }

  /** A sound matrix has no negative entry: one below `INFTY` is the length of a walk. */
  lemma SoundNonNegative(s: Shape, d: Matrix, n: int, i: int, j: int)
    requires Sound(s, d, n) && 0 <= i < n && 0 <= j < n
    ensures d(i, j) >= 0
  {
    if d(i, j) < INFTY {
      var w :| WalkBetween(s, w, i, j) && |w| - 1 == d(i, j);
    }
  }

  /** Two walks meeting at a vertex join into one, its length the sum of theirs. */
  lemma JoinWalk(s: Shape, p: seq<int>, q: seq<int>)
    requires Walk(s, p) && Walk(s, q) && p[|p| - 1] == q[0]
    ensures WalkBetween(s, p + q[1..], p[0], q[|q| - 1]) && |p + q[1..]| - 1 == (|p| - 1) + (|q| - 1)
  {
    var w := p + q[1..];
    forall t | 0 <= t < |w| - 1
      ensures Adjacent(s, w[t], w[t + 1])
    {
      if t < |p| - 1 {
        assert w[t] == p[t] && w[t + 1] == p[t + 1];
      } else {
        assert w[t] == q[t - |p| + 1] && w[t + 1] == q[t - |p| + 2];
      }
    }
    if |q| == 1 {
      assert w == p;
    } else {
      assert w[|w| - 1] == q[|q| - 1];
    }
  }

  /** The starting entries below `INFTY` are the walks `[i]` and `[i, j]`. */
  lemma InitSound(s: Shape, n: int)
    requires WellFormed(s)
    ensures Sound(s, InitDist(s), n)
  {
    forall i, j | 0 <= i < n && 0 <= j < n && InitAt(s, i, j) < INFTY
      ensures exists w :: WalkBetween(s, w, i, j) && |w| - 1 == InitAt(s, i, j)
    {
      if i in s.mask && Index(s, i) && (j in s.adj[i] || j in s.red[i]) {
        var w := [i, j];
        assert Adjacent(s, w[0], w[1]);
        assert WalkBetween(s, w, i, j);
      } else {
        var w := [i];
        assert WalkBetween(s, w, i, j);
      }
    }
  }

  /**
   * Relaxing through `k` keeps the matrix sound: an entry that drops to
   * `d(i, k) + d(k, j)` is the length of a walk to `k` joined to one from it.
   */
  lemma RelaxedSound(s: Shape, d: Matrix, k: int, V: set<int>, n: int)
    requires Sound(s, d, n) && 0 <= k < n
    ensures Sound(s, Relaxed(d, k, V), n)
  {
    var r := Relaxed(d, k, V);
    forall i, j | 0 <= i < n && 0 <= j < n && r(i, j) < INFTY
      ensures exists w :: WalkBetween(s, w, i, j) && |w| - 1 == r(i, j)
    {
      if r(i, j) == d(i, j) {
        var w :| WalkBetween(s, w, i, j) && |w| - 1 == d(i, j);
      } else {
        assert r(i, j) == d(i, k) + d(k, j) < INFTY;
        SoundNonNegative(s, d, n, i, k);
        SoundNonNegative(s, d, n, k, j);
        var p :| WalkBetween(s, p, i, k) && |p| - 1 == d(i, k);
        var q :| WalkBetween(s, q, k, j) && |q| - 1 == d(k, j);
        JoinWalk(s, p, q);
        var w := p + q[1..];
        assert WalkBetween(s, w, i, j) && |w| - 1 == r(i, j);
      }
    }
  }

  /** Relaxing through the members of `V` below `K` keeps the matrix sound. */
  lemma {:induction false} RelaxActiveSound(s: Shape, d: Matrix, K: nat, V: set<int>, n: int)
    requires Sound(s, d, n) && K <= n
    ensures Sound(s, RelaxActiveUpTo(d, K, V), n)
    decreases K
  {
    if K > 0 && K - 1 in V {
      var e := RelaxActiveUpTo(d, K - 1, V);
      RelaxActiveSound(s, d, K - 1, V, n);
      RelaxedSound(s, e, K - 1, V, n);
      assert RelaxActiveUpTo(d, K, V) == Relaxed(e, K - 1, V);
    } else if K > 0 {
      RelaxActiveSound(s, d, K - 1, V, n);
    }
  }

  /**
   * The intended distances are exact: an entry below `INFTY` between two
   * vertices is the length of a walk between them, and no walk between
   * them is shorter.
   */
  lemma ShortestExact(s: Shape, n: nat, i: int, j: int)
    requires WellFormed(s) && forall x :: x in s.mask ==> x < n
    requires 0 <= i < n && 0 <= j < n && ShortestDist(s, n)(i, j) < INFTY
    ensures exists w :: WalkBetween(s, w, i, j) && |w| - 1 == ShortestDist(s, n)(i, j)
    ensures forall w :: WalkBetween(s, w, i, j) ==> ShortestDist(s, n)(i, j) <= |w| - 1
  {
    InitSound(s, n);
    RelaxActiveSound(s, InitDist(s), n, s.mask, n);
    ShortestComplete(s, n);
    forall w | WalkBetween(s, w, i, j)
      ensures ShortestDist(s, n)(i, j) <= |w| - 1
    {
      assert Inside(w, s.mask);
    }
  }

  /** With no vertex removed, `floyd_warshall` relaxes through every vertex and computes the intended matrix. */
  lemma {:induction false} AsWrittenWhenFull(s: Shape, n: nat)
    requires s.mask == Below(n)
    ensures AsWrittenDist(s) == ShortestDist(s, n)
  {
    RelaxAllEqual(InitDist(s), n, s.mask);
  }

  /** Relaxing through `0 .. K-1` and through the members of `V` below `K` agree when all of them are in `V`. */
  lemma {:induction false} RelaxAllEqual(d: Matrix, K: nat, V: set<int>)
    requires forall x :: 0 <= x < K ==> x in V
    ensures RelaxUpTo(d, K, V) == RelaxActiveUpTo(d, K, V)
    decreases K
  {
    if K > 0 {
      RelaxAllEqual(d, K - 1, V);
    }
  }

  // ---------------------------------------------------------------------
  // floyd_warshall on the array

  /** Sets `res[u, v]` to 1 for each member `v` of `row`, in ascending order, and changes nothing else. */
  method FillRow(res: array2<int>, u: int, row: set<int>)
    requires 0 <= u < res.Length0
    modifies res
    ensures forall j :: 0 <= j < res.Length1 ==> res[u, j] == if j in row then 1 else old(res[u, j])
    ensures forall i, j :: 0 <= i < res.Length0 && 0 <= j < res.Length1 && i != u ==> res[i, j] == old(res[i, j])
  {
    for v := 0 to res.Length1
      invariant forall j :: 0 <= j < res.Length1 ==> res[u, j] == if j < v && j in row then 1 else old(res[u, j])
      invariant forall i, j :: 0 <= i < res.Length0 && 0 <= j < res.Length1 && i != u ==> res[i, j] == old(res[i, j])
    {
      if v in row {
        res[u, v] := 1;
      }
    }
  }

  /**
   * The first loop of `floyd_warshall`: an `n`-by-`n` array of `INFTY`,
   * then for each active `u` a 0 on the diagonal and a 1 for each black
   * and each red neighbour.
   */
  method InitMatrix(g: BitGraph) returns (res: array2<int>)
    requires g.Valid()
    ensures fresh(res) && res.Length0 == g.n && Holds(res, InitDist(g.State()))
  {
    res := new int[g.n, g.n]((i, j) => INFTY);
    for u := 0 to g.n
      invariant forall i, j :: 0 <= i < g.n && 0 <= j < g.n ==> res[i, j] == if i < u then InitAt(g.State(), i, j) else INFTY
    {
      if u in g.mask {
        res[u, u] := 0;
        FillRow(res, u, g.adj[u]);
        FillRow(res, u, g.red[u]);
      }
    }
  }

  /**
   * One pass of the inner loops of `floyd_warshall` through `k`, in place:
   * row by row over the members `u` of `V`, each entry `(u, v)` with `v` in
   * `V` becomes `min(res[u, v], res[u, k] + res[k, v])`. With `d(k, k)` not
   * negative the entries of row and column `k` it reads are the old ones,
   * so the array ends up holding `Relaxed(d, k, V)`.
   */
  method RelaxThrough(res: array2<int>, k: int, V: set<int>, ghost d: Matrix)
    requires Holds(res, d) && 0 <= k < res.Length0 && d(k, k) >= 0
    modifies res
    ensures Holds(res, Relaxed(d, k, V))
  {
    for u := 0 to res.Length0
      invariant forall i, j :: 0 <= i < res.Length0 && 0 <= j < res.Length0 ==>
        res[i, j] == if i < u then Relaxed(d, k, V)(i, j) else d(i, j)
    {
      if u in V {
        RelaxRow(res, k, u, V, d);
      }
    }
  }

  /** The innermost loop of `floyd_warshall`: row `u` relaxed through `k`. */
  method RelaxRow(res: array2<int>, k: int, u: int, V: set<int>, ghost d: Matrix)
    requires res.Length0 == res.Length1 && 0 <= k < res.Length0 && 0 <= u < res.Length0 && u in V && d(k, k) >= 0
    requires forall j :: 0 <= j < res.Length0 ==> res[u, j] == d(u, j)
    requires forall j :: 0 <= j < res.Length0 ==> res[k, j] == if k < u then Relaxed(d, k, V)(k, j) else d(k, j)
    modifies res
    ensures forall j :: 0 <= j < res.Length0 ==> res[u, j] == Relaxed(d, k, V)(u, j)
    ensures forall i, j :: 0 <= i < res.Length0 && 0 <= j < res.Length0 && i != u ==> res[i, j] == old(res[i, j])
  {
    for v := 0 to res.Length1
      invariant forall j :: 0 <= j < res.Length0 ==> res[u, j] == if j < v then Relaxed(d, k, V)(u, j) else d(u, j)
      invariant forall i, j :: 0 <= i < res.Length0 && 0 <= j < res.Length0 && i != u ==> res[i, j] == old(res[i, j])
    {
      if v in V {
        assert res[u, k] == d(u, k) && res[k, v] == d(k, v);
        res[u, v] := Min(res[u, v], res[u, k] + res[k, v]);
      }
    }
  }

  /**
   * `floyd_warshall(g)` as written: the starting matrix relaxed through
   * `k = 0 .. actual_n()-1`, each pass over the active vertices.
   */
  method FloydWarshall(g: BitGraph) returns (res: array2<int>)
    requires g.Valid()
    ensures fresh(res) && res.Length0 == g.n && Holds(res, AsWrittenDist(g.State()))
  {
    res := InitMatrix(g);
    ghost var d0 := InitDist(g.State());
    InitFacts(g.State(), g.n);
    var count := g.ActualN();
    for k := 0 to count
      invariant Holds(res, RelaxUpTo(d0, k, g.mask))
    {
      RelaxUpToFacts(d0, k, g.mask, g.n);
      RelaxThrough(res, k, g.mask, RelaxUpTo(d0, k, g.mask));
    }
  }

  /**
   * The corrected `floyd_warshall(g)`: the pivot `k` runs over the active
   * vertices, so each entry below `INFTY` is the length of a shortest walk
   * (`ShortestExact`).
   */
  method FloydWarshallActive(g: BitGraph) returns (res: array2<int>)
    requires g.Valid()
    ensures fresh(res) && res.Length0 == g.n && Holds(res, ShortestDist(g.State(), g.n))
  {
    res := InitMatrix(g);
    ghost var d0 := InitDist(g.State());
    InitFacts(g.State(), g.n);
    var n, V := g.n, g.mask;
    for k := 0 to n
      invariant Holds(res, RelaxActiveUpTo(d0, k, V))
    {
      if k in V {
        ActivePass(res, k, V, d0);
      }
    }
  }

  /** One pass of the corrected outer loop, through the active `k`. */
  method ActivePass(res: array2<int>, k: int, V: set<int>, ghost d0: Matrix)
    requires 0 <= k < res.Length0 && k in V && Holds(res, RelaxActiveUpTo(d0, k, V)) && Bounded(d0, res.Length0)
    modifies res
    ensures Holds(res, RelaxActiveUpTo(d0, k + 1, V))
  {
    ghost var e := RelaxActiveUpTo(d0, k, V);
    RelaxActiveFacts(d0, k, V, res.Length0);
    RelaxThrough(res, k, V, e);
  }

  // ---------------------------------------------------------------------
  // update_floyd_warshall

  /**
   * The first loop of `update_floyd_warshall` after merging `v` into `u`:
   * for each `x` of `V`, the entries `(u, x)` and `(x, u)` both become
   * `min(d(u, x), d(v, x))`.
   */
  function Joined(d: Matrix, u: int, v: int, V: set<int>): Matrix
  {
    (i, j) =>
      if (i == u && j in V) || (j == u && i in V) then
        var x := if i == u then j else i;
        Min(d(u, x), d(v, x))
      else d(i, j)
  }

  /** The whole of `update_floyd_warshall`: join the rows of `u` and `v`, then relax through `u`. */
  function Updated(d: Matrix, u: int, v: int, V: set<int>): Matrix
  {
    Relaxed(Joined(d, u, v, V), u, V)
  }

  /**
   * `update_floyd_warshall(res, u, v, g)`, called once `v` has been merged
   * into `u`, so that `v` is no longer among the vertices of `g`.
   */
  method UpdateFloydWarshall(res: array2<int>, u: int, v: int, g: BitGraph, ghost d: Matrix)
    requires g.Valid() && Holds(res, d) && res.Length0 == g.n
    requires u in g.mask && 0 <= v < g.n && v !in g.mask && d(u, u) >= 0 && d(v, u) >= 0
    modifies res
    ensures Holds(res, Updated(d, u, v, g.mask))
  {
    JoinRows(res, u, v, g.mask, d);
    RelaxThrough(res, u, g.mask, Joined(d, u, v, g.mask));
  }

  /** The first loop of `update_floyd_warshall`, in place. */
  method JoinRows(res: array2<int>, u: int, v: int, V: set<int>, ghost d: Matrix)
    requires Holds(res, d) && 0 <= u < res.Length0 && 0 <= v < res.Length0 && u in V && v !in V
    modifies res
    ensures Holds(res, Joined(d, u, v, V))
  {
    for w := 0 to res.Length0
      invariant forall i, j :: 0 <= i < res.Length0 && 0 <= j < res.Length0 ==>
        res[i, j] == if (i == u && j < w) || (j == u && i < w) then Joined(d, u, v, V)(i, j) else d(i, j)
    {
      if w in V {
        var m := Min(res[u, w], res[v, w]);
        res[w, u] := m;
        res[u, w] := m;
      }
    }
  }

  /**
   * With a symmetric matrix the update keeps entries in `0 .. INFTY`,
   * raises no entry and stays symmetric.
   */
  lemma UpdatedFacts(d: Matrix, u: int, v: int, V: set<int>, n: int)
    requires Bounded(d, n) && Symmetric(d, n) && 0 <= u < n && 0 <= v < n
    ensures Bounded(Updated(d, u, v, V), n) && NoHigher(Updated(d, u, v, V), d, n)
    ensures Symmetric(Updated(d, u, v, V), n)
  {
    var J := Joined(d, u, v, V);
    JoinedFacts(d, u, v, V, n);
    RelaxedStep(d, J, u, V, n);
    RelaxedSymmetric(J, u, V, n);
  }

  /** The first step of the update keeps a symmetric matrix symmetric, bounded, and no higher. */
  lemma JoinedFacts(d: Matrix, u: int, v: int, V: set<int>, n: int)
    requires Bounded(d, n) && Symmetric(d, n) && 0 <= u < n && 0 <= v < n
    ensures Bounded(Joined(d, u, v, V), n) && NoHigher(Joined(d, u, v, V), d, n)
    ensures Symmetric(Joined(d, u, v, V), n)
  {
    var J := Joined(d, u, v, V);
    forall i, j | 0 <= i < n && 0 <= j < n
      ensures 0 <= J(i, j) <= d(i, j) && J(i, j) == J(j, i)
    {
      assert d(u, i) == d(i, u) && d(v, i) == d(i, v);
      assert d(u, j) == d(j, u) && d(v, j) == d(j, v);
    }
  }

  /**
   * In the merged trigraph, an edge between two vertices other than `u`
   * was an edge before, and an edge at `u` was an edge at `u` or at `v`.
   */
  lemma MergedAdjacent(s: Shape, u: int, v: int, x: int, y: int)
    requires WellFormed(s) && u in s.mask && v in s.mask && u != v
    requires x in s.mask - {v} && Adjacent(Merged(s, u, v), x, y)
    ensures x != u && y != u ==> Adjacent(s, x, y)
    ensures x != u && y == u ==> Adjacent(s, x, u) || Adjacent(s, x, v)
    ensures x == u ==> Adjacent(s, u, y) || Adjacent(s, v, y)
  {
    MergedActive(s, u, v);
    if x != u && y == u && !Adjacent(s, x, u) {
      var h := MergeCost(s, u, v);
      if x in h {
        assert x in s.red[u] || x in s.red[v] || x in s.adj[u] || x in s.adj[v];
      }
    }
  }

  /** A walk of a well-formed trigraph read backwards is a walk. */
  lemma WalkBackwards(s: Shape, w: seq<int>) returns (b: seq<int>)
    requires WellFormed(s) && Walk(s, w)
    ensures Walk(s, b) && |b| == |w| && b[0] == w[|w| - 1] && b[|b| - 1] == w[0]
    ensures forall t :: 0 <= t < |b| ==> b[t] == w[|w| - 1 - t]
  {
    b := seq(|w|, t requires 0 <= t < |w| => w[|w| - 1 - t]);
    forall t | 0 <= t < |b| - 1
      ensures Adjacent(s, b[t], b[t + 1])
    {
      var x, y := w[|w| - 2 - t], w[|w| - 1 - t];
      assert Adjacent(s, x, y);
      assert b[t] == y && b[t + 1] == x;
    }
  }

  /**
   * A walk of the merged trigraph that meets `u` only at its end comes
   * from a walk of the trigraph before the merge ending at `u` or at `v`,
   * so a complete matrix bounds it by the nearer of the two.
   */
  lemma ToMerged(s: Shape, d: Matrix, u: int, v: int, p: seq<int>)
    requires WellFormed(s) && u in s.mask && v in s.mask && u != v && Complete(s, d, s.mask)
    requires Walk(Merged(s, u, v), p) && p[|p| - 1] == u && forall t :: 0 <= t < |p| - 1 ==> p[t] != u
    ensures Min(d(p[0], u), d(p[0], v)) <= |p| - 1
  {
    if |p| == 1 {
      assert Walk(s, [u]) && Inside([u], s.mask);
    } else {
      var q := Unmerged(s, u, v, p);
      assert Inside(q, s.mask);
    }
  }

  /**
   * The walk of the trigraph before the merge behind a merged walk of at
   * least one step that meets `u` only at its end: the same vertices, the
   * last one replaced by `u` or `v`.
   */
  lemma Unmerged(s: Shape, u: int, v: int, p: seq<int>) returns (q: seq<int>)
    requires WellFormed(s) && u in s.mask && v in s.mask && u != v
    requires Walk(Merged(s, u, v), p) && |p| > 1 && p[|p| - 1] == u && forall t :: 0 <= t < |p| - 1 ==> p[t] != u
    ensures Walk(s, q) && |q| == |p| && q[0] == p[0] && (q[|q| - 1] == u || q[|q| - 1] == v)
  {
    var m := Merged(s, u, v);
    assert m.mask == s.mask - {v};
    var x := p[|p| - 2];
    MergedAdjacent(s, u, v, x, u);
    var z := if Adjacent(s, x, u) then u else v;
    q := p[..|p| - 1] + [z];
    forall t | 0 <= t < |q| - 1
      ensures Adjacent(s, q[t], q[t + 1])
    {
      if t < |q| - 2 {
        assert Adjacent(m, p[t], p[t + 1]);
        MergedAdjacent(s, u, v, p[t], p[t + 1]);
      }
    }
  }

  /**
   * The update keeps a complete matrix complete: if `d` bounds every walk
   * before `v` is merged into `u`, the updated matrix bounds every walk
   * after.
   */
  lemma UpdatedComplete(s: Shape, d: Matrix, u: int, v: int, n: int)
    requires WellFormed(s) && (forall x :: x in s.mask ==> x < n) && u in s.mask && v in s.mask && u != v
    requires Complete(s, d, s.mask) && Symmetric(d, n)
    ensures Complete(Merged(s, u, v), Updated(d, u, v, s.mask - {v}), s.mask - {v})
  {
    var m, V := Merged(s, u, v), s.mask - {v};
    MergedActive(s, u, v);
    forall w | Walk(m, w) && Inside(w, V)
      ensures Updated(d, u, v, V)(w[0], w[|w| - 1]) <= |w| - 1
    {
      if forall t :: 0 <= t < |w| ==> w[t] != u {
        UpdatedAvoiding(s, d, u, v, w);
      } else {
        var t0 :| 0 <= t0 < |w| && w[t0] == u;
        UpdatedThrough(s, d, u, v, n, w, t0);
      }
    }
  }

  /** A merged walk that avoids `u` was a walk before, and the update keeps its entry or lowers it. */
  lemma UpdatedAvoiding(s: Shape, d: Matrix, u: int, v: int, w: seq<int>)
    requires WellFormed(s) && u in s.mask && v in s.mask && u != v && Complete(s, d, s.mask)
    requires Walk(Merged(s, u, v), w) && forall t :: 0 <= t < |w| ==> w[t] != u
    ensures Updated(d, u, v, s.mask - {v})(w[0], w[|w| - 1]) <= |w| - 1
  {
    MergedActive(s, u, v);
    forall t | 0 <= t < |w| - 1
      ensures Adjacent(s, w[t], w[t + 1])
    {
      MergedAdjacent(s, u, v, w[t], w[t + 1]);
    }
    assert Walk(s, w) && Inside(w, s.mask);
    var a, b := w[0], w[|w| - 1];
    assert d(a, b) <= |w| - 1;
    assert Joined(d, u, v, s.mask - {v})(a, b) == d(a, b);
  }

  /**
   * A merged walk through `u`, cut at its first and last visit of `u`:
   * the part before reaches `u` or `v`, the part after, read backwards,
   * too, and the update relaxes through `u` the nearer of each.
   */
  lemma UpdatedThrough(s: Shape, d: Matrix, u: int, v: int, n: int, w: seq<int>, t0: int)
    requires WellFormed(s) && (forall x :: x in s.mask ==> x < n) && u in s.mask && v in s.mask && u != v
    requires Complete(s, d, s.mask) && Symmetric(d, n)
    requires Walk(Merged(s, u, v), w) && 0 <= t0 < |w| && w[t0] == u
    ensures Updated(d, u, v, s.mask - {v})(w[0], w[|w| - 1]) <= |w| - 1
  {
    var V := s.mask - {v};
    assert Merged(s, u, v).mask == V;
    var i := FirstAt(w, u, 0, t0);
    var j := LastAt(w, u, |w|, t0);
    JoinedToU(s, d, u, v, n, w, i);
    JoinedFromU(s, d, u, v, n, w, j);
    var J := Joined(d, u, v, V);
    RelaxedVia(J, u, V, w[0], w[|w| - 1]);
    assert Updated(d, u, v, V) == Relaxed(J, u, V);
  }

  /** The joined entry from the start of a merged walk to its first visit of `u`, at `i`, is at most `i`. */
  lemma JoinedToU(s: Shape, d: Matrix, u: int, v: int, n: int, w: seq<int>, i: int)
    requires WellFormed(s) && (forall x :: x in s.mask ==> x < n) && u in s.mask && v in s.mask && u != v
    requires Complete(s, d, s.mask) && Symmetric(d, n)
    requires Walk(Merged(s, u, v), w) && 0 <= i < |w| && w[i] == u && forall t :: 0 <= t < i ==> w[t] != u
    ensures Joined(d, u, v, s.mask - {v})(w[0], u) <= i
  {
    assert Merged(s, u, v).mask == s.mask - {v};
    var p := w[..i + 1];
    SliceWalk(Merged(s, u, v), w, 0, i + 1);
    ToMerged(s, d, u, v, p);
    var a := w[0];
    assert p[0] == a;
    assert d(u, a) == d(a, u) && d(v, a) == d(a, v);
  }

  /** The joined entry from the last visit of `u`, at `j`, to the end of a merged walk is at most the steps left. */
  lemma JoinedFromU(s: Shape, d: Matrix, u: int, v: int, n: int, w: seq<int>, j: int)
    requires WellFormed(s) && (forall x :: x in s.mask ==> x < n) && u in s.mask && v in s.mask && u != v
    requires Complete(s, d, s.mask) && Symmetric(d, n)
    requires Walk(Merged(s, u, v), w) && 0 <= j < |w| && w[j] == u && forall t :: j < t < |w| ==> w[t] != u
    ensures Joined(d, u, v, s.mask - {v})(u, w[|w| - 1]) <= |w| - 1 - j
  {
    var m := Merged(s, u, v);
    assert m.mask == s.mask - {v};
    MergedWellFormed(s, u, v);
    SliceWalk(m, w, j, |w|);
    var back := WalkBackwards(m, w[j..]);
    ToMerged(s, d, u, v, back);
    var b := w[|w| - 1];
    assert back[0] == b;
    assert d(u, b) == d(b, u) && d(v, b) == d(b, v);
  }

  /** A relaxed entry between members of `V` is at most the path through the pivot. */
  lemma RelaxedVia(d: Matrix, k: int, V: set<int>, a: int, b: int)
    requires a in V && b in V
    ensures Relaxed(d, k, V)(a, b) <= d(a, k) + d(k, b)
  {
    var r := Relaxed(d, k, V);
    assert r(a, b) == Min(d(a, b), d(a, k) + d(k, b));
  }

  // ---------------------------------------------------------------------
  // The cost of a pair in greedy_mincost_local

  /** The sum of the entries `d(x, w)` over the members `w` of `S` below `k`. */
  function RowSum(d: Matrix, x: int, S: set<int>, k: int): int
    decreases k
  {
    if k <= 0 then 0 else RowSum(d, x, S, k - 1) + (if k - 1 in S then d(x, k - 1) else 0)
  }

  /**
   * The `cost` lambda of `greedy_mincost_local` for the pair `(u, v)`: with
   * `h` the merge cost and `N` its vertices that are red neighbours of
   * neither `u` nor `v` (the red edges the merge would create), the pair
   * `(min(sum of d(u, w), sum of d(v, w)) + |h|, |h|)` over `w` in `N`.
   */
  function PairCost(s: Shape, d: Matrix, n: int, u: int, v: int): (int, int)
    requires Index(s, u) && Index(s, v)
  {
    var h := MergeCost(s, u, v);
    var created := h - s.red[u] - s.red[v];
    (Min(RowSum(d, u, created, n), RowSum(d, v, created, n)) + |h|, |h|)
  }

  /** `cost(u, v)`: the merge cost, then one loop over the new red neighbours accumulating both sums. */
  method Cost(g: BitGraph, ap: array2<int>, u: int, v: int, ghost d: Matrix) returns (c: (int, int))
    requires g.Sized() && Holds(ap, d) && ap.Length0 == g.n && 0 <= u < g.n && 0 <= v < g.n
    ensures c == PairCost(g.State(), d, g.n, u, v)
  {
    var hint := g.MergeCost(u, v);
    var created := hint - g.red[u] - g.red[v];
    var resuv, resvu := SumRows(ap, u, v, created, d);
    PairCostOf(g.State(), d, g.n, u, v, hint, created);
    c := (Min(resuv, resvu) + |hint|, |hint|);
  }

  /** `PairCost` from the merge cost `hint` and the red edges `created` it would add. */
  lemma PairCostOf(s: Shape, d: Matrix, n: int, u: int, v: int, hint: set<int>, created: set<int>)
    requires Index(s, u) && Index(s, v) && hint == MergeCost(s, u, v) && created == hint - s.red[u] - s.red[v]
    ensures PairCost(s, d, n, u, v) == (Min(RowSum(d, u, created, n), RowSum(d, v, created, n)) + |hint|, |hint|)
  {
  }

  /** The loop of `cost`: the sums of the entries of rows `u` and `v` over the members of `created`. */
  method SumRows(ap: array2<int>, u: int, v: int, created: set<int>, ghost d: Matrix) returns (resuv: int, resvu: int)
    requires Holds(ap, d) && 0 <= u < ap.Length0 && 0 <= v < ap.Length0
    ensures resuv == RowSum(d, u, created, ap.Length0) && resvu == RowSum(d, v, created, ap.Length0)
  {
    resuv, resvu := 0, 0;
    for w := 0 to ap.Length0
      invariant resuv == RowSum(d, u, created, w) && resvu == RowSum(d, v, created, w)
    {
      if w in created {
        assert ap[u, w] == d(u, w) && ap[v, w] == d(v, w);
        resuv := resuv + ap[u, w];
        resvu := resvu + ap[v, w];
      }
    }
  }

  /** A sum over entries that are not negative is not negative, and a sum over no member is 0. */
  lemma {:induction false} RowSumFacts(d: Matrix, x: int, S: set<int>, k: int)
    requires 0 <= x < k && Bounded(d, k)
    ensures RowSum(d, x, S, k) >= 0
    ensures (forall w :: w in S ==> w < 0 || w >= k) ==> RowSum(d, x, S, k) == 0
  {
    RowSumBelow(d, x, S, k, k);
  }

  lemma {:induction false} RowSumBelow(d: Matrix, x: int, S: set<int>, k: int, n: int)
    requires 0 <= x < n && k <= n && Bounded(d, n)
    ensures RowSum(d, x, S, k) >= 0
    ensures (forall w :: w in S ==> w < 0 || w >= n) ==> RowSum(d, x, S, k) == 0
    decreases k
  {
    if k > 0 {
      RowSumBelow(d, x, S, k - 1, n);
    }
  }

  /**
   * The second key of the cost is `|merge_cost(u, v)|`; the first is at
   * least that when no entry is negative, and equal to it when the merge
   * creates no red edge. The cost does not depend on the order of `u`
   * and `v`.
   */
  lemma PairCostFacts(s: Shape, d: Matrix, n: int, u: int, v: int)
    requires WellFormed(s) && |s.adj| == n && 0 <= u < n && 0 <= v < n && Bounded(d, n)
    ensures PairCost(s, d, n, u, v).1 == |MergeCost(s, u, v)|
    ensures PairCost(s, d, n, u, v).0 >= PairCost(s, d, n, u, v).1
    ensures MergeCost(s, u, v) <= s.red[u] + s.red[v] ==> PairCost(s, d, n, u, v).0 == PairCost(s, d, n, u, v).1
    ensures PairCost(s, d, n, u, v) == PairCost(s, d, n, v, u)
  {
    var h := MergeCost(s, u, v);
    var created := h - s.red[u] - s.red[v];
    RowSumFacts(d, u, created, n);
    RowSumFacts(d, v, created, n);
    assert MergeCost(s, v, u) == h;
    assert created == MergeCost(s, v, u) - s.red[v] - s.red[u];
  }

  // ---------------------------------------------------------------------
  // The counterexample: a removed vertex hides a path

  /**
   * Four vertex indices, vertex 1 removed (as `kernelize_heur` may leave a
   * graph), and the black path `0 - 3 - 2`.
   */
  function HoleExample(): Shape
  {
    Shape([{3}, {}, {3}, {0, 2}], [{}, {}, {}, {}], {0, 2, 3})
  }

  /** The example is a well-formed trigraph, and `[0, 3, 2]` is a walk of it. */
  lemma HoleExampleFacts()
    ensures WellFormed(HoleExample()) && Walk(HoleExample(), [0, 3, 2])
  {
    var s := HoleExample();
    assert forall u :: u in s.mask ==> u == 0 || u == 2 || u == 3;
    assert Adjacent(s, 0, 3) && Adjacent(s, 3, 2);
  }

  /** The starting entries of the example between active vertices. */
  lemma HoleExampleInit(i: int, j: int)
    requires i in HoleExample().mask && j in HoleExample().mask
    ensures InitDist(HoleExample())(i, j) == if i == j then 0 else if i == 3 || j == 3 then 1 else INFTY
    ensures InitDist(HoleExample())(i, 1) == INFTY
  {
  }

  /** No entry of the example's starting matrix gets shorter through 0, 1 or 2. */
  lemma HoleExampleNoShortcut(k: int, i: int, j: int)
    requires 0 <= k < 3 && i in HoleExample().mask && j in HoleExample().mask
    ensures InitDist(HoleExample())(i, j) <= InitDist(HoleExample())(i, k) + InitDist(HoleExample())(k, j)
  {
    HoleExampleInit(i, j);
    if k != 1 {
      HoleExampleInit(i, k);
      HoleExampleInit(k, j);
    } else {
      HoleExampleInit(i, i);
    }
  }

  /** Relaxing through `0 .. K-1` changes nothing when no entry between members of `V` gets shorter through any of them. */
  lemma {:induction false} RelaxUpToKeeps(d: Matrix, K: nat, V: set<int>)
    requires forall k, i, j :: 0 <= k < K && i in V && j in V ==> d(i, j) <= d(i, k) + d(k, j)
    ensures forall i, j :: RelaxUpTo(d, K, V)(i, j) == d(i, j)
    decreases K
  {
    if K > 0 {
      RelaxUpToKeeps(d, K - 1, V);
      var e := RelaxUpTo(d, K - 1, V);
      forall i, j
        ensures RelaxUpTo(d, K, V)(i, j) == d(i, j)
      {
        assert RelaxUpTo(d, K, V)(i, j) == Relaxed(e, K - 1, V)(i, j);
        assert e(i, j) == d(i, j) && e(i, K - 1) == d(i, K - 1) && e(K - 1, j) == d(K - 1, j);
      }
    }
  }

  /** `floyd_warshall` leaves the entry for 0 and 2 of the example at `INFTY`. */
  lemma HoleExampleAsWritten()
    ensures AsWrittenDist(HoleExample())(0, 2) == INFTY
  {
    var s := HoleExample();
    var d0 := InitDist(s);
    assert |s.mask| == 3;
    forall k, i, j | 0 <= k < 3 && i in s.mask && j in s.mask
      ensures d0(i, j) <= d0(i, k) + d0(k, j)
    {
      HoleExampleNoShortcut(k, i, j);
    }
    RelaxUpToKeeps(d0, 3, s.mask);
    HoleExampleInit(0, 2);
  }

  /**
   * On the example, `floyd_warshall` relaxes through 0, 1 and 2 but not
   * through 3, and leaves 0 and 2 at `INFTY` although the walk `[0, 3, 2]`
   * joins them in two steps, as the intended matrix records.
   */
  lemma HoleExampleMissesPath()
    ensures Walk(HoleExample(), [0, 3, 2])
    ensures AsWrittenDist(HoleExample())(0, 2) == INFTY
    ensures ShortestDist(HoleExample(), 4)(0, 2) <= 2
  {
    HoleExampleAsWritten();
    HoleExampleFacts();
    var s, w := HoleExample(), [0, 3, 2];
    assert Inside(w, s.mask);
    ShortestComplete(s, 4);
    assert w[0] == 0 && w[|w| - 1] == 2;
  }
}
