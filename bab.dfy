// The memoized branch-and-bound search of src/bab.h over the dense
// contraction graph: `mem_bab_aux_lb_init` and its wrapper
// `mem_bab_heur_with_ub_lb`.

module Bab {
  import opened Common
  import opened BitGraphs
  import BitKernel

  /** A search result: the width reached and its contraction sequence, stored last move first. */
  type Score = (int, ContrSeq)

  /** The memo, keyed by the canonical label string of a state. */
  type Memo = map<seq<int>, Score>

  /** An entry as the search stores it: at most INFTY, and INFTY only with the empty placeholder. */
  ghost predicate Sane(e: Score)
  {
    e.0 <= INFTY && (e.0 == INFTY ==> e.1 == [])
  }

  ghost predicate MemoSane(mem: Memo)
  {
    forall k :: k in mem ==> Sane(mem[k])
  }

  /** Every stored sequence names vertices in 0..n-1. */
  ghost predicate MemoBelow(mem: Memo, n: int)
  {
    forall k :: k in mem ==> PairsBelow(mem[k].1, n)
  }

  /** `mem` keeps every key of `mem0` with its entry. */
  ghost predicate Extends(mem: Memo, mem0: Memo)
  {
    forall k :: k in mem0 ==> k in mem && mem[k] == mem0[k]
  }

  /**
   * What a finite result of a fresh search is made of: a width no smaller
   * than the current red degree `w`, and a sequence that ends with one of
   * the options followed by the kernel moves reversed.
   */
  ghost predicate Explained(e: Score, w: int, opts: ContrSeq, kernel: ContrSeq)
  {
    e.0 < INFTY ==>
      && w <= e.0
      && |kernel| < |e.1|
      && e.1[|e.1| - |kernel|..] == Reversed(kernel)
      && e.1[|e.1| - |kernel| - 1] in opts
  }

  /** The entry a finite child result gives: its sequence, then `(u, v)`, then the reversed kernel moves. */
  lemma ExplainedStep(child: Score, w: int, u: int, v: int, opts: ContrSeq, kernel: ContrSeq)
    requires (u, v) in opts
    ensures Explained((Max(w, child.0), child.1 + [(u, v)] + Reversed(kernel)), w, opts, kernel)
  {
    ReversedLength(kernel);
    var s := child.1 + [(u, v)] + Reversed(kernel);
    assert s[|s| - |kernel| - 1] == (u, v);
    assert s[|s| - |kernel|..] == Reversed(kernel);
  }

  /** An active set with more than one member has an option pair. */
  lemma TwoActive(mask: set<int>) returns (p: Contr)
    requires mask != {} && |mask| != 1
    ensures p.0 in mask && p.1 in mask && p.0 < p.1
  {
    Nonempty(mask);
    var a :| a in mask;
    assert |mask - {a}| == |mask| - 1;
    Nonempty(mask - {a});
    var b :| b in mask - {a};
    p := (Min(a, b), Max(a, b));
  }

  /**
   * The memo while the options of a first-visited key are explored: the
   * keys of the memo `mem0` found on entry are kept with their entries,
   * and the entry under `key` is sane and explained.
   */
  ghost predicate Searching(mem: Memo, mem0: Memo, key: seq<int>, w: int, opts: ContrSeq, kernel: ContrSeq, n: int)
  {
    && key !in mem0 && key in mem && Extends(mem, mem0)
    && (MemoSane(mem0) ==> MemoSane(mem))
    && (MemoBelow(mem0, n) ==> MemoBelow(mem, n))
    && Sane(mem[key]) && Explained(mem[key], w, opts, kernel)
  }

  /**
   * `mem_bab_aux_lb_init(g, lb, min_score, mem)`. `minScore` and `mem`
   * are passed by reference in the source; here they come back as
   * `minScore'` and `mem'`. The ghost results name the kernel moves, the
   * options explored from, how many of them were tried, and `min_score`
   * after each try.
   */
  method MemBab(g: BitGraph, lb: int, minScore: int, mem: Memo)
    returns (r: Score, minScore': int, mem': Memo, ghost kernel: ContrSeq, ghost opts: ContrSeq, ghost tried: nat,
             ghost hist: seq<int>)
    requires g.Valid() && g.mask != {}
    modifies g
    decreases |g.mask|, 2
    ensures g.Valid() && minScore' <= minScore && Extends(mem', mem)
    ensures MemoSane(mem) ==> MemoSane(mem')
    ensures MemoBelow(mem, g.n) ==> MemoBelow(mem', g.n) && PairsBelow(r.1, g.n)
    ensures minScore' < minScore ==> r.0 < INFTY
    ensures
      if old(g.fullTww) >= minScore then
        // Pruned: nothing is touched.
        r == (INFTY, []) && minScore' == minScore && mem' == mem && unchanged(g)
      else
        && g.mask <= old(g.mask) && g.mask != {} && BitKernel.Reduced(g.State())
        && |kernel| == old(|g.mask|) - |g.mask|
        && g.fullTww == old(g.fullTww) && g.curTww == old(g.curTww)
        && if |g.mask| == 1 then
             // One vertex left after kernelization.
             r == (old(g.curTww), Reversed(kernel)) && minScore' == old(g.fullTww) && mem' == mem
           else if g.key in mem then
             // A key seen before.
             r == mem[g.key] && minScore' == minScore && mem' == mem && (MemoSane(mem) ==> Sane(r))
           else
             // A first visit.
             && g.key in mem' && r == mem'[g.key] && Sane(r)
             && Explained(r, old(g.curTww), opts, kernel)
             && (forall p :: p in opts <==> p.0 in g.mask && p.1 in g.mask && p.0 < p.1)
             && 1 <= tried <= |opts| && |hist| == tried && minScore' == hist[tried - 1]
             // The loop goes on while neither bound is met, and stops as soon as one is.
             && (forall j :: 0 <= j < tried - 1 ==> old(g.fullTww) < hist[j] && lb < hist[j])
             && (tried < |opts| ==> old(g.fullTww) >= minScore' || minScore' <= lb)
  {
    var fullWidth := g.fullTww;
    if fullWidth >= minScore {
      return (INFTY, []), minScore, mem, [], [], 0, [];
    }
    var w := g.curTww;
    var moves := BitKernel.Kernelize(g);
    kernel := moves;
    var kernelMoves := Reversed(moves);
    ReversedBelow(moves, g.n);
    if g.ActualN() == 1 {
      minScore' := Min(minScore, fullWidth);
      return (w, kernelMoves), minScore', mem, kernel, [], 0, [];
    }
    var key := g.key;
    if key in mem {
      return mem[key], minScore, mem, kernel, [], 0, [];
    }
    var options, i;
    minScore', mem', options, i, hist := Explore(g, key, w, kernelMoves, kernel, lb, minScore, mem);
    r, opts, tried := mem'[key], options, i;
  }

  /** `g.options()` on a graph with two or more active vertices: every option pair, and at least one. */
  method NonemptyOptions(g: BitGraph) returns (options: ContrSeq)
    requires g.Valid() && g.mask != {} && |g.mask| != 1
    ensures options != [] && forall p :: p in options <==> p.0 in g.mask && p.1 in g.mask && p.0 < p.1
  {
    options := g.Options();
    ghost var p := TwoActive(g.mask);
    assert p in options;
  }

  /**
   * A first visit to `key`: the loop over `g.options()`. `hist[j]` is
   * `min_score` after the option `j`.
   */
  method Explore(g: BitGraph, key: seq<int>, w: int, kernelMoves: ContrSeq, ghost kernel: ContrSeq,
                 lb: int, minScore: int, mem0: Memo)
    returns (minScore': int, mem': Memo, options: ContrSeq, tried: nat, ghost hist: seq<int>)
    requires g.Valid() && kernelMoves == Reversed(kernel) && key !in mem0 && g.mask != {} && |g.mask| != 1
    requires 0 <= w <= g.n && PairsBelow(kernelMoves, g.n)
    decreases |g.mask|, 1
    ensures forall p :: p in options <==> p.0 in g.mask && p.1 in g.mask && p.0 < p.1
    ensures minScore' <= minScore && Searching(mem', mem0, key, w, options, kernel, g.n)
    ensures minScore' < minScore ==> mem'[key].0 < INFTY
    ensures 1 <= tried <= |options| && |hist| == tried && minScore' == hist[tried - 1]
    ensures forall j :: 0 <= j < tried - 1 ==> g.fullTww < hist[j] && lb < hist[j]
    ensures tried < |options| ==> g.fullTww >= minScore' || minScore' <= lb
  {
    options := NonemptyOptions(g);
    var fullWidth := g.fullTww;
    mem' := mem0[key := (INFTY, [])];
    minScore' := minScore;
    tried := 0;
    hist := [];
    while tried < |options|
      invariant tried <= |options| && minScore' <= minScore && |hist| == tried
      invariant tried > 0 ==> minScore' == hist[tried - 1]
      invariant forall j :: 0 <= j < tried ==> fullWidth < hist[j] && lb < hist[j]
      invariant Searching(mem', mem0, key, w, options, kernel, g.n)
      invariant minScore' < minScore ==> mem'[key].0 < INFTY
    {
      var (u, v) := options[tried];
      minScore', mem' := Branch(g, key, u, v, w, kernelMoves, kernel, options, lb, minScore', mem', mem0);
      tried := tried + 1;
      HistStep(hist, minScore', fullWidth, lb);
      hist := hist + [minScore'];
      if fullWidth >= minScore' {
        break;
      }
      if minScore' <= lb {
        break;
      }
    }
  }

  /**
   * Appending `min_score` to the history keeps the earlier entries, so
   * the bounds on them hold, and on the new one too when it is above both.
   */
  lemma HistStep(hist: seq<int>, x: int, full: int, lb: int)
    requires forall j :: 0 <= j < |hist| ==> full < hist[j] && lb < hist[j]
    ensures |hist + [x]| == |hist| + 1 && (hist + [x])[|hist|] == x
    ensures forall j :: 0 <= j < |hist| ==> full < (hist + [x])[j] && lb < (hist + [x])[j]
    ensures full < x && lb < x ==> forall j :: 0 <= j <= |hist| ==> full < (hist + [x])[j] && lb < (hist + [x])[j]
  {
  }

  /**
   * One option `(u, v)`: search `g.contract(u, v)` with the current
   * `min_score` and memo, then let `Improve` update the entry of `key`.
   */
  method Branch(g: BitGraph, key: seq<int>, u: int, v: int, w: int, kernelMoves: ContrSeq, ghost kernel: ContrSeq,
                ghost opts: ContrSeq, lb: int, minScore: int, mem: Memo, ghost mem0: Memo)
    returns (minScore': int, mem': Memo)
    requires g.Valid() && u in g.mask && v in g.mask && u != v && (u, v) in opts
    requires kernelMoves == Reversed(kernel) && Searching(mem, mem0, key, w, opts, kernel, g.n)
    requires 0 <= w <= g.n && PairsBelow(kernelMoves, g.n)
    decreases |g.mask|, 0
    ensures minScore' <= minScore && Searching(mem', mem0, key, w, opts, kernel, g.n)
    ensures minScore' < minScore || mem[key].0 < INFTY ==> mem'[key].0 < INFTY
  {
    var gp := g.Contract(u, v);
    var child, ms, mm, k1, o1, t1, h1 := MemBab(gp, lb, minScore, mem);
    minScore' := ms;
    mem' := Improve(key, u, v, w, kernelMoves, kernel, opts, g.n, child, mm, mem, mem0);
  }

  /**
   * The update after one option: `max(w, score)` with the child's
   * sequence, `(u, v)` and the reversed kernel moves replaces the entry
   * of `key` only if it is strictly smaller.
   */
  method Improve(key: seq<int>, u: int, v: int, w: int, kernelMoves: ContrSeq, ghost kernel: ContrSeq,
                 ghost opts: ContrSeq, ghost n: int, child: Score, mem: Memo, ghost before: Memo, ghost mem0: Memo)
    returns (mem': Memo)
    requires (u, v) in opts && kernelMoves == Reversed(kernel) && Searching(before, mem0, key, w, opts, kernel, n)
    requires Extends(mem, before) && (MemoSane(before) ==> MemoSane(mem))
    requires 0 <= u < n && 0 <= v < n && PairsBelow(kernelMoves, n)
    requires MemoBelow(before, n) ==> MemoBelow(mem, n) && PairsBelow(child.1, n)
    ensures Searching(mem', mem0, key, w, opts, kernel, n)
    ensures mem'.Keys == mem.Keys && forall k :: k in mem && k != key ==> mem'[k] == mem[k]
    ensures Max(w, child.0) < mem[key].0 ==> mem'[key] == (Max(w, child.0), child.1 + [(u, v)] + kernelMoves)
    ensures Max(w, child.0) >= mem[key].0 ==> mem'[key] == mem[key]
    ensures (w < INFTY && child.0 < INFTY) || mem[key].0 < INFTY ==> mem'[key].0 < INFTY
  {
    var score := Max(w, child.0);
    mem' := mem;
    StillSearching(mem, before, mem0, key, w, opts, kernel, n);
    if score < mem'[key].0 {
      ExplainedStep(child, w, u, v, opts, kernel);
      Store(mem, mem0, key, (score, child.1 + [(u, v)] + kernelMoves), w, opts, kernel, n);
      mem' := mem'[key := (score, child.1 + [(u, v)] + kernelMoves)];
    }
  }

  /** A memo that extends one still searching, keeping its sanity and range, is still searching. */
  lemma StillSearching(mem: Memo, before: Memo, mem0: Memo, key: seq<int>, w: int, opts: ContrSeq, kernel: ContrSeq, n: int)
    requires Searching(before, mem0, key, w, opts, kernel, n) && Extends(mem, before)
    requires MemoSane(before) ==> MemoSane(mem)
    requires MemoBelow(before, n) ==> MemoBelow(mem, n)
    ensures Searching(mem, mem0, key, w, opts, kernel, n) && mem[key] == before[key]
  {
  }

  /** Storing a sane, explained entry in range under `key` keeps the search invariant. */
  lemma Store(mem: Memo, mem0: Memo, key: seq<int>, e: Score, w: int, opts: ContrSeq, kernel: ContrSeq, n: int)
    requires Searching(mem, mem0, key, w, opts, kernel, n)
    requires Sane(e) && Explained(e, w, opts, kernel) && (MemoBelow(mem0, n) ==> PairsBelow(e.1, n))
    ensures Searching(mem[key := e], mem0, key, w, opts, kernel, n)
  {
  }

  /**
   * `mem_bab_heur_with_ub_lb(g, ub, lb)`: a search from an empty memo
   * with `ub` as the score to beat. Returns the final `min_score` and the
   * stored sequence reversed into contraction order.
   */
  method MemBabHeurWithUbLb(g: BitGraph, ub: int, lb: int)
    returns (res: Score, ghost found: Score, ghost kernel: ContrSeq, ghost opts: ContrSeq)
    requires g.Valid() && g.mask != {}
    modifies g
    ensures res.0 <= ub && res.1 == Reversed(found.1) && PairsBelow(res.1, g.n)
    ensures res.0 < ub && old(|g.mask|) >= 2 ==> res.1 != []
    ensures old(g.fullTww) >= ub ==> res == (ub, [])
    ensures old(g.fullTww) < ub && |g.mask| == 1 ==> res == (old(g.fullTww), kernel)
    ensures old(g.fullTww) < ub && |g.mask| != 1 ==>
      && Sane(found)
      && (forall p :: p in opts <==> p.0 in g.mask && p.1 in g.mask && p.0 < p.1)
      && (found.0 < INFTY ==>
            old(g.curTww) <= found.0 && |kernel| < |res.1| && res.1[..|kernel|] == kernel && res.1[|kernel|] in opts)
  {
    var r, minScore, mem, k, o, tried, hist := MemBab(g, lb, ub, map[]);
    found, kernel, opts := r, k, o;
    res := (minScore, Reversed(r.1));
    ReversedTwice(kernel);
    ReversedBelow(r.1, g.n);
    ReversedLength(r.1);
    if old(g.fullTww) < ub && |g.mask| != 1 && r.0 < INFTY {
      ReversedPrefix(r.1, kernel);
    }
  }

  /** A sequence ending with `Reversed(t)` (and one more element before it) reverses into `t` followed by that element. */
  lemma ReversedPrefix(s: ContrSeq, t: ContrSeq)
    requires |t| < |s| && s[|s| - |t|..] == Reversed(t)
    ensures |Reversed(s)| == |s| && Reversed(s)[..|t|] == t && Reversed(s)[|t|] == s[|s| - |t| - 1]
  {
    var pre := s[..|s| - |t|];
    assert s == pre + Reversed(t);
    ReversedAppend(pre, Reversed(t));
    ReversedTwice(t);
    ReversedLength(pre);
    ReversedLength(s);
    ReversedAt(s, |t|);
  }
}
