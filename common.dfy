/**
 * Shared definitions: the infeasible-score sentinel, contraction sequences,
 * and the set operators that the sparse graph uses on its `unordered_set`
 * rows. Each operator copies its left operand and then inserts or erases
 * while it walks one operand; the walk order of an `unordered_set` is
 * unspecified, so the model picks the next element by `:|` and the proofs
 * hold for every order.
 */
module Common {

  /** The score of an infeasible branch. */
  const INFTY: int := 9999

  /** One contraction `(u, v)`: `v` is merged into `u`. */
  type Contr = (int, int)

  type ContrSeq = seq<Contr>

  /** Every pair of the sequence names two vertices in 0..n-1. */
  ghost predicate PairsBelow(s: ContrSeq, n: int)
  {
    forall p :: p in s ==> 0 <= p.0 < n && 0 <= p.1 < n
  }

  /** `std::reverse` on a sequence. */
  function Reversed<T>(s: seq<T>): (r: seq<T>)
  {
    if s == [] then [] else Reversed(s[1..]) + [s[0]]
  }

  lemma {:induction false} ReversedAt<T>(s: seq<T>, k: int)
    requires 0 <= k < |s|
    ensures |Reversed(s)| == |s| && Reversed(s)[k] == s[|s| - 1 - k]
  {
    ReversedLength(s);
    if k < |s| - 1 {
      ReversedAt(s[1..], k);
    }
  }

  lemma {:induction false} ReversedLength<T>(s: seq<T>)
    ensures |Reversed(s)| == |s|
  {
    if s != [] {
      ReversedLength(s[1..]);
    }
  }

  /** Reversing a concatenation reverses the parts and swaps them. */
  lemma {:induction false} ReversedAppend<T>(a: seq<T>, b: seq<T>)
    ensures Reversed(a + b) == Reversed(b) + Reversed(a)
  {
    if a == [] {
      assert a + b == b;
    } else {
      assert (a + b)[1..] == a[1..] + b;
      ReversedAppend(a[1..], b);
    }
  }

  /** Reversing a sequence keeps its pairs in range. */
  lemma ReversedBelow(s: ContrSeq, n: int)
    requires PairsBelow(s, n)
    ensures PairsBelow(Reversed(s), n)
  {
    ReversedLength(s);
    forall p | p in Reversed(s)
      ensures 0 <= p.0 < n && 0 <= p.1 < n
    {
      var k :| 0 <= k < |Reversed(s)| && Reversed(s)[k] == p;
      ReversedAt(s, k);
    }
  }

  lemma {:induction false} ReversedTwice<T>(s: seq<T>)
    ensures Reversed(Reversed(s)) == s
  {
    if s != [] {
      ReversedTwice(s[1..]);
      ReversedAppend(Reversed(s[1..]), [s[0]]);
      assert Reversed([s[0]]) == [s[0]];
      assert [s[0]] + s[1..] == s;
    }
  }

  /**
   * Two steps that each log one pair per removed vertex together log one
   * pair per vertex removed over both, after the old log.
   */
  lemma Logged(s: ContrSeq, s1: ContrSeq, s2: ContrSeq, m0: set<int>, m1: set<int>, m2: set<int>)
    requires |m1| <= |m0| && |s1| == |s| + |m0| - |m1| && s1[..|s|] == s
    requires |m2| <= |m1| && |s2| == |s1| + |m1| - |m2| && s2[..|s1|] == s1
    ensures |m2| <= |m0| && |s2| == |s| + |m0| - |m2| && s2[..|s|] == s
  {
    assert s2[..|s|] == s2[..|s1|][..|s|];
  }

  /** `std::max` on ints. */
  function Max(a: int, b: int): int
  {
    if a < b then b else a
  }

  /** `std::min` on ints. */
  function Min(a: int, b: int): int
  {
    if a < b then a else b
  }

  /** The vertex numbers `0..n-1`. */
  function Below(n: int): (r: set<int>)
    ensures forall i :: i in r <==> 0 <= i < n
    ensures |r| == Max(n, 0)
  {
    if n <= 0 then {} else Below(n - 1) + {n - 1}
  }

  /** A set of vertex numbers below `n` has at most `n` members. */
  lemma SubsetBelow(s: set<int>, n: int)
    requires forall x :: x in s ==> 0 <= x < n
    ensures |s| <= Max(n, 0)
  {
    assert Below(n) == s + (Below(n) - s);
  }

  /** The number of entries that are false (vertices not yet seen, say). */
  function CountFalse(s: seq<bool>): (c: nat)
    ensures c <= |s|
  {
    if s == [] then 0
    else CountFalse(s[..|s| - 1]) + (if s[|s| - 1] then 0 else 1)
  }

  /**
   * Turning entries true never raises the count, and turning one that
   * was false lowers it.
   */
  lemma {:induction false} CountFalseShrinks(a: seq<bool>, b: seq<bool>, k: int)
    requires |a| == |b| && forall i :: 0 <= i < |a| && a[i] ==> b[i]
    ensures CountFalse(b) <= CountFalse(a)
    ensures 0 <= k < |a| && !a[k] && b[k] ==> CountFalse(b) < CountFalse(a)
  {
    if a != [] {
      var m := |a| - 1;
      CountFalseShrinks(a[..m], b[..m], k);
    }
  }

  /** `s` with every label `hi` replaced by `lo`: the class of `hi` joins the class of `lo`. */
  function Relabelled(s: seq<int>, lo: int, hi: int): (r: seq<int>)
    ensures |r| == |s|
  {
    seq(|s|, i requires 0 <= i < |s| => if s[i] == hi then lo else s[i])
  }

  /** A nonempty set has an element to pick. */
  lemma Nonempty(s: set<int>)
    requires s != {}
    ensures exists x :: x in s
  {
    if forall x :: x !in s {
      assert false;
    }
  }

  /** `l & r`: copy `l`, then erase each element of `l` that `r` lacks. */
  method SetAnd(l: set<int>, r: set<int>) returns (res: set<int>)
    ensures res == l * r
  {
    res := l;
    var todo := l;
    while todo != {}
      invariant todo <= l
      invariant res == (l - todo) * r + todo
      decreases |todo|
    {
      Nonempty(todo);
      var x :| x in todo;
      if x !in r {
        res := res - {x};
      }
      todo := todo - {x};
    }
  }

  /** `l | r`: copy `l`, then insert each element of `r`. */
  method SetOr(l: set<int>, r: set<int>) returns (res: set<int>)
    ensures res == l + r
  {
    res := l;
    var todo := r;
    while todo != {}
      invariant todo <= r
      invariant res == l + (r - todo)
      decreases |todo|
    {
      Nonempty(todo);
      var x :| x in todo;
      res := res + {x};
      todo := todo - {x};
    }
  }

  /** `l ^ r`: start from `l | r`, then erase each element of `l` that `r` holds. */
  method SetXor(l: set<int>, r: set<int>) returns (res: set<int>)
    ensures res == (l - r) + (r - l)
  {
    res := SetOr(l, r);
    var todo := l;
    while todo != {}
      invariant todo <= l
      invariant res == (l + r) - ((l - todo) * r)
      decreases |todo|
    {
      Nonempty(todo);
      var x :| x in todo;
      if x in r {
        res := res - {x};
      }
      todo := todo - {x};
    }
  }

  /** `l - r`: copy `l`, then erase each element of `r`. */
  method SetDiff(l: set<int>, r: set<int>) returns (res: set<int>)
    ensures res == l - r
  {
    res := l;
    var todo := r;
    while todo != {}
      invariant todo <= r
      invariant res == l - (r - todo)
      decreases |todo|
    {
      Nonempty(todo);
      var x :| x in todo;
      res := res - {x};
      todo := todo - {x};
    }
  }
}
