/**
 * The ordered union-find that path reduction uses to track which vertex
 * each original vertex has been merged into. `merge(u, v)` always keeps
 * the root of `u`, so the representative of a class is the vertex that
 * survives in the graph.
 *
 * The parent and size vectors are fields the methods reassign. Two ghost
 * fields carry the proof: `rep[i]` is the root that `i` reaches by
 * following parents, and `depth[i]` is a bound on the length of that walk
 * (it strictly decreases along parent links, which is what makes `Find`
 * terminate).
 */
module UnionFind {
  import opened Common

  /** The elements whose representative, according to `rep`, is `r`. */
  ghost function ClassOf(rep: seq<int>, r: int): set<int>
  {
    set i | 0 <= i < |rep| && rep[i] == r
  }

  /** Relabelling unites the two classes and leaves every other class alone. */
  lemma RelabelClasses(rep: seq<int>, ru: int, rv: int)
    requires ru != rv
    ensures ClassOf(Relabelled(rep, ru, rv), ru) == ClassOf(rep, ru) + ClassOf(rep, rv)
    ensures ClassOf(rep, ru) * ClassOf(rep, rv) == {}
    ensures |ClassOf(Relabelled(rep, ru, rv), ru)| == |ClassOf(rep, ru)| + |ClassOf(rep, rv)|
    ensures forall r :: r != ru && r != rv ==> ClassOf(Relabelled(rep, ru, rv), r) == ClassOf(rep, r)
  {
  }

  /** The elements that are their own parent. */
  ghost function RootsOf(parent: seq<int>): set<int>
  {
    set i | 0 <= i < |parent| && parent[i] == i
  }

  /**
   * The representation invariant: parents are in range, `rep[i]` is a
   * root, roots represent themselves, a parent link keeps the
   * representative and strictly lowers `depth`, and a root's size is the
   * size of its class.
   */
  ghost predicate Consistent(parent: seq<int>, size: seq<int>, rep: seq<int>, depth: seq<nat>)
  {
    && |size| == |parent| && |rep| == |parent| && |depth| == |parent|
    && Linked(parent, rep, depth)
    && Sized(parent, size, rep)
  }

  /** The parent links, the representatives and the depths agree. */
  ghost predicate Linked(parent: seq<int>, rep: seq<int>, depth: seq<nat>)
    requires |rep| == |parent| && |depth| == |parent|
  {
    && (forall i :: 0 <= i < |parent| ==> 0 <= parent[i] < |parent|)
    && (forall i {:trigger rep[i]} :: 0 <= i < |rep| ==> 0 <= rep[i] < |parent| && parent[rep[i]] == rep[i])
    && (forall i {:trigger parent[i]} :: 0 <= i < |parent| && parent[i] == i ==> rep[i] == i && depth[i] == 0)
    && (forall i {:trigger parent[i], depth[i]} :: 0 <= i < |parent| && parent[i] != i ==>
          rep[parent[i]] == rep[i] && depth[parent[i]] < depth[i])
  }

  /** Each root's size is the size of its class. */
  ghost predicate Sized(parent: seq<int>, size: seq<int>, rep: seq<int>)
    requires |size| == |parent|
  {
    forall r :: 0 <= r < |parent| && parent[r] == r ==> size[r] == |ClassOf(rep, r)|
  }

  lemma LinkedAt(parent: seq<int>, rep: seq<int>, depth: seq<nat>, i: int)
    requires |rep| == |parent| && |depth| == |parent| && Linked(parent, rep, depth)
    requires 0 <= i < |parent| && parent[i] != i
    ensures rep[parent[i]] == rep[i] && depth[parent[i]] < depth[i]
  {
  }

  /** Pointing a non-root straight at its representative keeps the invariant and the roots. */
  lemma CompressConsistent(parent: seq<int>, size: seq<int>, rep: seq<int>, depth: seq<nat>, u: int)
    requires Consistent(parent, size, rep, depth)
    requires 0 <= u < |parent| && parent[u] != u
    ensures Consistent(parent[u := rep[u]], size, rep, depth)
    ensures RootsOf(parent[u := rep[u]]) == RootsOf(parent)
  {
    CompressLinked(parent, rep, depth, u);
    var p := parent[u := rep[u]];
    assert parent[rep[u]] == rep[u];
    assert forall i :: 0 <= i < |p| ==> (p[i] == i <==> parent[i] == i);
  }

  lemma CompressLinked(parent: seq<int>, rep: seq<int>, depth: seq<nat>, u: int)
    requires |rep| == |parent| && |depth| == |parent| && Linked(parent, rep, depth)
    requires 0 <= u < |parent| && parent[u] != u
    ensures Linked(parent[u := rep[u]], rep, depth)
  {
    var p := parent[u := rep[u]];
    assert parent[rep[u]] == rep[u] && rep[rep[u]] == rep[u] && depth[rep[u]] == 0;
    LinkedAt(parent, rep, depth, u);
    forall i | 0 <= i < |p| && p[i] != i
      ensures rep[p[i]] == rep[i] && depth[p[i]] < depth[i]
    {
      if i != u {
        LinkedAt(parent, rep, depth, i);
      }
    }
  }

  /** Linking root `rv` under root `ru` keeps the invariant and removes one root. */
  lemma LinkConsistent(parent: seq<int>, size: seq<int>, rep: seq<int>, depth: seq<nat>, ru: int, rv: int)
    requires Consistent(parent, size, rep, depth)
    requires 0 <= ru < |parent| && 0 <= rv < |parent| && ru != rv
    requires parent[ru] == ru && parent[rv] == rv
    ensures Consistent(parent[rv := ru], size[ru := size[ru] + size[rv]], Relabelled(rep, ru, rv), Deepen(rep, depth, rv))
    ensures RootsOf(parent[rv := ru]) == RootsOf(parent) - {rv}
    ensures rv in RootsOf(parent)
  {
    LinkLinked(parent, rep, depth, ru, rv);
    LinkSized(parent, size, rep, ru, rv);
  }

  lemma LinkLinked(parent: seq<int>, rep: seq<int>, depth: seq<nat>, ru: int, rv: int)
    requires |rep| == |parent| && |depth| == |parent| && Linked(parent, rep, depth)
    requires 0 <= ru < |parent| && 0 <= rv < |parent| && ru != rv
    requires parent[ru] == ru && parent[rv] == rv
    ensures Linked(parent[rv := ru], Relabelled(rep, ru, rv), Deepen(rep, depth, rv))
  {
    var p, r, d := parent[rv := ru], Relabelled(rep, ru, rv), Deepen(rep, depth, rv);
    forall i | 0 <= i < |p| && p[i] != i
      ensures r[p[i]] == r[i] && d[p[i]] < d[i]
    {
      if i == rv {
        assert p[i] == ru && rep[ru] == ru && rep[rv] == rv && depth[ru] == 0;
      } else {
        LinkedAt(parent, rep, depth, i);
      }
    }
  }

  lemma LinkSized(parent: seq<int>, size: seq<int>, rep: seq<int>, ru: int, rv: int)
    requires |size| == |parent| && |rep| == |parent| && Sized(parent, size, rep)
    requires 0 <= ru < |parent| && 0 <= rv < |parent| && ru != rv
    requires parent[ru] == ru && parent[rv] == rv
    ensures Sized(parent[rv := ru], size[ru := size[ru] + size[rv]], Relabelled(rep, ru, rv))
  {
    var p, s, r := parent[rv := ru], size[ru := size[ru] + size[rv]], Relabelled(rep, ru, rv);
    RelabelClasses(rep, ru, rv);
    forall x | 0 <= x < |p| && p[x] == x
      ensures s[x] == |ClassOf(r, x)|
    {
      if x != ru {
        assert x != rv;
      }
    }
  }

  /** Every element of the class of `rv` moves one level further from its root. */
  ghost function Deepen(rep: seq<int>, depth: seq<nat>, rv: int): (d: seq<nat>)
    requires |rep| == |depth|
    ensures |d| == |depth|
  {
    seq(|depth|, i requires 0 <= i < |depth| => if rep[i] == rv then depth[i] + 1 else depth[i])
  }

  class OrderedUnionFind {
    var parent: seq<int>
    var size: seq<int>
    ghost var rep: seq<int>
    ghost var depth: seq<nat>

    /** The elements whose representative is `r`. */
    ghost function Class(r: int): set<int>
      reads this
    {
      ClassOf(rep, r)
    }

    /** The current roots: the elements that are their own parent. */
    ghost function Roots(): set<int>
      reads this
    {
      RootsOf(parent)
    }

    ghost predicate Valid()
      reads this
    {
      Consistent(parent, size, rep, depth)
    }

    /** Every element starts as its own root, with a class of size 1. */
    constructor (n: nat)
      ensures Valid() && |parent| == n
      ensures forall i :: 0 <= i < n ==> parent[i] == i && size[i] == 1 && rep[i] == i
      ensures forall i :: i in Roots() <==> 0 <= i < n
    {
      var p: seq<int> := [];
      var i := 0;
      while i < n
        invariant 0 <= i <= n && |p| == i
        invariant forall j :: 0 <= j < i ==> p[j] == j
      {
        p := p + [i];
        i := i + 1;
      }
      parent := p;
      size := seq(n, _ => 1);
      rep := seq(n, j => j);
      depth := seq(n, _ => 0);
      new;
      forall r | 0 <= r < n
        ensures size[r] == |Class(r)|
      {
        assert Class(r) == {r};
      }
    }

    /**
     * The root of `u`. Path compression points `u` (and, recursively,
     * every element on its path) straight at the root; no element's
     * representative, no root and no size changes.
     */
    method Find(u: int) returns (r: int)
      requires Valid() && 0 <= u < |parent|
      modifies this
      ensures Valid() && |parent| == |old(parent)|
      ensures r == rep[u] && 0 <= r < |parent| && parent[r] == r
      ensures rep == old(rep) && size == old(size) && depth == old(depth)
      ensures forall i :: 0 <= i < |parent| ==> parent[i] == old(parent[i]) || parent[i] == rep[i]
      ensures Roots() == old(Roots())
      decreases depth[u]
    {
      if parent[u] != u {
        var p := Find(parent[u]);
        CompressConsistent(parent, size, rep, depth, u);
        parent := parent[u := p];
      }
      r := parent[u];
    }

    /**
     * Unites the classes of `u` and `v`, keeping the root of `u`.
     * Returns false, and changes no representative, when they already
     * share a root.
     */
    method Merge(u: int, v: int) returns (merged: bool)
      requires Valid() && 0 <= u < |parent| && 0 <= v < |parent|
      modifies this
      ensures Valid() && |parent| == |old(parent)|
      ensures merged == (old(rep[u]) != old(rep[v]))
      ensures !merged ==> rep == old(rep) && size == old(size) && Roots() == old(Roots())
      ensures merged ==>
        && rep[v] == old(rep[u])
        && size[old(rep[u])] == old(size[rep[u]]) + old(size[rep[v]])
        && Roots() == old(Roots()) - {old(rep[v])}
        && |Roots()| == |old(Roots())| - 1
      ensures forall i :: 0 <= i < |rep| ==>
        rep[i] == (if old(rep[i]) == old(rep[v]) then old(rep[u]) else old(rep[i]))
    {
      ghost var rep0 := rep;
      var ru := Find(u);
      assert rep == rep0;
      var rv := Find(v);
      assert rep == rep0 && ru == rep0[u] && rv == rep0[v];
      if ru == rv {
        return false;
      }
      Link(ru, rv);
      merged := true;
    }

    /** Makes root `ru` the parent of root `rv`. */
    method Link(ru: int, rv: int)
      requires Valid() && 0 <= ru < |parent| && 0 <= rv < |parent| && ru != rv
      requires parent[ru] == ru && parent[rv] == rv
      modifies this
      ensures Valid()
      ensures parent == old(parent[rv := ru]) && size == old(size[ru := size[ru] + size[rv]])
      ensures rep == Relabelled(old(rep), ru, rv)
      ensures Roots() == old(Roots()) - {rv} && rv in old(Roots())
      ensures |ClassOf(rep, ru)| == |old(ClassOf(rep, ru))| + |old(ClassOf(rep, rv))|
    {
      var p1, s1 := parent[rv := ru], size[ru := size[ru] + size[rv]];
      ghost var r1, d1 := Relabelled(rep, ru, rv), Deepen(rep, depth, rv);
      LinkConsistent(parent, size, rep, depth, ru, rv);
      RelabelClasses(rep, ru, rv);
      parent, size, rep, depth := p1, s1, r1, d1;
    }
  }
}
