/**
 * The fixed-capacity bit set `LongBitset<N>` with N = 1: four 64-bit words,
 * so 256 slots. The words live in an array that the compound operators update
 * in place; `Elems()` is the set of integers the words stand for.
 *
 * A `uint64_t` word is a natural number below 2^64, and the bitwise operators
 * are defined bit by bit from the least significant bit up, so that every fact
 * about them is proved by induction over the bit position. The 256-bit AVX
 * loads, stores and logic operations of the source act word by word, so they
 * are modelled as a loop over the four words.
 */
module LongBitsets {

  /** Number of 64-bit words (4 * N with N = 1). */
  const WORDS: int := 4
  /** `MAX_SIZE = 4 * 64 * N`, also the index that `end()` stands at. */
  const MAX_SIZE: int := 256

  /** `uint64_t`. */
  type Word = x: int | 0 <= x < 0x1_0000_0000_0000_0000

  // ---------------------------------------------------------------------------
  // Bits of a word
  // ---------------------------------------------------------------------------

  function Pow2(k: nat): (r: nat)
    ensures r >= 1
  {
    if k == 0 then 1 else 2 * Pow2(k - 1)
  }

  lemma {:induction false} Pow2Monotone(j: nat, k: nat)
    requires j <= k
    ensures Pow2(j) <= Pow2(k)
  {
    if j < k {
      Pow2Monotone(j, k - 1);
    }
  }

  lemma {:induction false} Pow2Sum(a: nat, b: nat)
    ensures Pow2(a + b) == Pow2(a) * Pow2(b)
  {
    if a > 0 {
      Pow2Sum(a - 1, b);
    }
  }

  /** 2^64, the number of `uint64_t` values. */
  lemma Pow2Word(k: nat)
    requires k <= 64
    ensures Pow2(k) <= Pow2(64) == 0x1_0000_0000_0000_0000
  {
    Pow2Monotone(k, 64);
    assert Pow2(2) == 4;
    Pow2Sum(2, 2);
    assert Pow2(4) == 16;
    Pow2Sum(4, 4);
    assert Pow2(8) == 0x100;
    Pow2Sum(8, 8);
    assert Pow2(16) == 0x1_0000;
    Pow2Sum(16, 16);
    assert Pow2(32) == 0x1_0000_0000;
    Pow2Sum(32, 32);
  }

  /** Bit `k` of `x`, counting from the least significant bit. */
  predicate Bit(x: nat, k: nat)
  {
    if k == 0 then x % 2 == 1 else Bit(x / 2, k - 1)
  }

  lemma {:induction false} NoBitOfZero(k: nat)
    ensures !Bit(0, k)
  {
    if k > 0 {
      NoBitOfZero(k - 1);
    }
  }

  /**
   * The word whose bit `k` is `f(bit k of x, bit k of y)` for every `k < n`,
   * and zero from bit `n` on: the bitwise operators of an `n`-bit word.
   */
  function Bitwise(f: (bool, bool) -> bool, x: nat, y: nat, n: nat): (r: nat)
    ensures r < Pow2(n)
  {
    if n == 0 then 0
    else 2 * Bitwise(f, x / 2, y / 2, n - 1) + (if f(x % 2 == 1, y % 2 == 1) then 1 else 0)
  }

  lemma {:induction false} BitwiseBit(f: (bool, bool) -> bool, x: nat, y: nat, n: nat, k: nat)
    ensures Bit(Bitwise(f, x, y, n), k) == (k < n && f(Bit(x, k), Bit(y, k)))
  {
    if n == 0 {
      NoBitOfZero(k);
    } else if k > 0 {
      BitwiseBit(f, x / 2, y / 2, n - 1, k - 1);
    }
  }

  function AndOp(a: bool, b: bool): bool { a && b }
  function OrOp(a: bool, b: bool): bool { a || b }
  function XorOp(a: bool, b: bool): bool { a != b }
  /** `andnot(a, b)` computes `~a & b`. */
  function AndNotOp(a: bool, b: bool): bool { !a && b }
  function NotOp(a: bool, b: bool): bool { !a }

  /** `x & y` on `uint64_t`. */
  function WordAnd(x: Word, y: Word): (r: Word)
  {
    Pow2Word(64);
    Bitwise(AndOp, x, y, 64)
  }

  /** `x | y` on `uint64_t`. */
  function WordOr(x: Word, y: Word): (r: Word)
  {
    Pow2Word(64);
    Bitwise(OrOp, x, y, 64)
  }

  /** `x ^ y` on `uint64_t`. */
  function WordXor(x: Word, y: Word): (r: Word)
  {
    Pow2Word(64);
    Bitwise(XorOp, x, y, 64)
  }

  /** `_mm256_andnot_si256(x, y)` on one word: `~x & y`. */
  function WordAndNot(x: Word, y: Word): (r: Word)
  {
    Pow2Word(64);
    Bitwise(AndNotOp, x, y, 64)
  }

  /** `~x` on `uint64_t`. */
  function WordNot(x: Word): (r: Word)
  {
    Pow2Word(64);
    Bitwise(NotOp, x, 0, 64)
  }

  /** `ONE << k` for `k < 64`: only bit `k` is set. */
  function Shl(k: nat): (r: Word)
    requires k < 64
  {
    Pow2Word(k + 1);
    Pow2(k)
  }

  lemma {:induction false} Pow2Bit(k: nat, j: nat)
    ensures Bit(Pow2(k), j) == (j == k)
  {
    if k == 0 {
      if j > 0 {
        NoBitOfZero(j - 1);
      }
    } else if j > 0 {
      Pow2Bit(k - 1, j - 1);
    }
  }

  /** `(ONE << k) - 1` has exactly the bits below `k`. */
  lemma {:induction false} LowMaskBit(k: nat, j: nat)
    ensures Bit(Pow2(k) - 1, j) == (j < k)
  {
    if k == 0 {
      NoBitOfZero(j);
    } else if j > 0 {
      LowMaskBit(k - 1, j - 1);
    }
  }

  // ---------------------------------------------------------------------------
  // countr_zero and popcount
  // ---------------------------------------------------------------------------

  /** The number of zero bits below the lowest set bit, looking at `n` bits. */
  function TrailingZeros(x: nat, n: nat): (r: nat)
    ensures r <= n
  {
    if n == 0 || x % 2 == 1 then 0 else 1 + TrailingZeros(x / 2, n - 1)
  }

  lemma {:induction false} TrailingZerosBits(x: nat, n: nat)
    ensures TrailingZeros(x, n) < n ==> Bit(x, TrailingZeros(x, n))
    ensures forall j :: 0 <= j < TrailingZeros(x, n) ==> !Bit(x, j)
  {
    if n > 0 && x % 2 == 0 {
      TrailingZerosBits(x / 2, n - 1);
      forall j | 0 < j < TrailingZeros(x, n)
        ensures !Bit(x, j)
      {
        assert Bit(x, j) == Bit(x / 2, j - 1);
      }
    }
  }

  lemma {:induction false} TrailingZerosAll(x: nat, n: nat)
    requires x < Pow2(n)
    ensures TrailingZeros(x, n) == n <==> x == 0
  {
    if n > 0 && x % 2 == 0 {
      TrailingZerosAll(x / 2, n - 1);
    }
  }

  /** `std::countr_zero` on `uint64_t`. */
  function CountrZero(x: Word): (r: nat)
  {
    TrailingZeros(x, 64)
  }

  /** `countr_zero(x)` is the lowest set bit of `x`, or 64 exactly when `x` is zero. */
  lemma CountrZeroLowest(x: Word)
    ensures CountrZero(x) <= 64
    ensures CountrZero(x) == 64 <==> x == 0
    ensures CountrZero(x) < 64 ==> Bit(x, CountrZero(x))
    ensures forall j :: 0 <= j < CountrZero(x) ==> !Bit(x, j)
  {
    Pow2Word(64);
    TrailingZerosAll(x, 64);
    TrailingZerosBits(x, 64);
  }

  /** A word is nonzero exactly when one of its 64 bits is set. */
  lemma WordZero(x: Word)
    ensures x != 0 ==> exists j :: 0 <= j < 64 && Bit(x, j)
    ensures x == 0 ==> forall j :: 0 <= j < 64 ==> !Bit(x, j)
  {
    CountrZeroLowest(x);
    if x != 0 {
      assert Bit(x, CountrZero(x));
    } else {
      forall j | 0 <= j < 64
        ensures !Bit(x, j)
      {
        NoBitOfZero(j);
      }
    }
  }

  /** The number of set bits among the lowest `k`. */
  function BitsBelow(x: nat, k: nat): nat
  {
    if k == 0 then 0 else BitsBelow(x, k - 1) + (if Bit(x, k - 1) then 1 else 0)
  }

  /** `std::popcount` on `uint64_t`. */
  function PopCount(x: Word): nat
  {
    BitsBelow(x, 64)
  }

  // ---------------------------------------------------------------------------
  // Sets of indices stored in words
  // ---------------------------------------------------------------------------

  /** Index `i` is a member of the set the words `ws` stand for. */
  predicate Has(ws: seq<Word>, i: int)
  {
    0 <= i < 64 * |ws| && Bit(ws[i / 64], i % 64)
  }

  /** The abstraction function: the set of indices whose bit is set. */
  function Members(ws: seq<Word>): set<int>
  {
    set i | 0 <= i < 64 * |ws| && Has(ws, i)
  }

  function AndWords(x: seq<Word>, y: seq<Word>): (r: seq<Word>)
    requires |x| == |y|
    ensures |r| == |x|
  {
    seq(|x|, i requires 0 <= i < |x| => WordAnd(x[i], y[i]))
  }

  function OrWords(x: seq<Word>, y: seq<Word>): (r: seq<Word>)
    requires |x| == |y|
    ensures |r| == |x|
  {
    seq(|x|, i requires 0 <= i < |x| => WordOr(x[i], y[i]))
  }

  function XorWords(x: seq<Word>, y: seq<Word>): (r: seq<Word>)
    requires |x| == |y|
    ensures |r| == |x|
  {
    seq(|x|, i requires 0 <= i < |x| => WordXor(x[i], y[i]))
  }

  /** `_mm256_andnot_si256(r, l)` computes `~r & l`. */
  function DiffWords(x: seq<Word>, y: seq<Word>): (r: seq<Word>)
    requires |x| == |y|
    ensures |r| == |x|
  {
    seq(|x|, i requires 0 <= i < |x| => WordAndNot(y[i], x[i]))
  }

  function NotWords(x: seq<Word>): (r: seq<Word>)
    ensures |r| == |x|
  {
    seq(|x|, i requires 0 <= i < |x| => WordNot(x[i]))
  }

  lemma MembersAnd(x: seq<Word>, y: seq<Word>)
    requires |x| == |y|
    ensures Members(AndWords(x, y)) == Members(x) * Members(y)
  {
    var r := AndWords(x, y);
    forall i | 0 <= i < 64 * |x|
      ensures Has(r, i) == (Has(x, i) && Has(y, i))
    {
      BitwiseBit(AndOp, x[i / 64], y[i / 64], 64, i % 64);
    }
  }

  lemma MembersOr(x: seq<Word>, y: seq<Word>)
    requires |x| == |y|
    ensures Members(OrWords(x, y)) == Members(x) + Members(y)
  {
    var r := OrWords(x, y);
    forall i | 0 <= i < 64 * |x|
      ensures Has(r, i) == (Has(x, i) || Has(y, i))
    {
      BitwiseBit(OrOp, x[i / 64], y[i / 64], 64, i % 64);
    }
  }

  lemma MembersXor(x: seq<Word>, y: seq<Word>)
    requires |x| == |y|
    ensures Members(XorWords(x, y)) == (Members(x) - Members(y)) + (Members(y) - Members(x))
  {
    var r := XorWords(x, y);
    forall i | 0 <= i < 64 * |x|
      ensures Has(r, i) == (Has(x, i) != Has(y, i))
    {
      BitwiseBit(XorOp, x[i / 64], y[i / 64], 64, i % 64);
    }
  }

  lemma MembersDiff(x: seq<Word>, y: seq<Word>)
    requires |x| == |y|
    ensures Members(DiffWords(x, y)) == Members(x) - Members(y)
  {
    var r := DiffWords(x, y);
    forall i | 0 <= i < 64 * |x|
      ensures Has(r, i) == (Has(x, i) && !Has(y, i))
    {
      BitwiseBit(AndNotOp, y[i / 64], x[i / 64], 64, i % 64);
    }
  }

  /** `~` flips every bit, including the slots at and above any vertex count. */
  lemma MembersNot(x: seq<Word>)
    ensures forall i :: i in Members(NotWords(x)) <==> 0 <= i < 64 * |x| && i !in Members(x)
  {
    var r := NotWords(x);
    forall i | 0 <= i < 64 * |x|
      ensures Has(r, i) == !Has(x, i)
    {
      BitwiseBit(NotOp, x[i / 64], 0, 64, i % 64);
    }
  }

  /** Setting bit `i % 64` of word `i / 64` adds exactly `i`. */
  lemma HasAfterInsert(ws: seq<Word>, i: int, j: int)
    requires 0 <= i < 64 * |ws|
    ensures Has(ws[i / 64 := WordOr(ws[i / 64], Shl(i % 64))], j) == (Has(ws, j) || j == i)
  {
    if 0 <= j < 64 * |ws| && j / 64 == i / 64 {
      BitwiseBit(OrOp, ws[i / 64], Pow2(i % 64), 64, j % 64);
      Pow2Bit(i % 64, j % 64);
    }
  }

  /** Clearing bit `i % 64` of word `i / 64` removes exactly `i`. */
  lemma HasAfterErase(ws: seq<Word>, i: int, j: int)
    requires 0 <= i < 64 * |ws|
    ensures Has(ws[i / 64 := WordAnd(ws[i / 64], WordNot(Shl(i % 64)))], j) == (Has(ws, j) && j != i)
  {
    if 0 <= j < 64 * |ws| && j / 64 == i / 64 {
      var m := Shl(i % 64);
      BitwiseBit(AndOp, ws[i / 64], WordNot(m), 64, j % 64);
      BitwiseBit(NotOp, m, 0, 64, j % 64);
      Pow2Bit(i % 64, j % 64);
    }
  }

  /** A nonzero word holds a member: the lowest set bit of that word. */
  lemma NonZeroWord(ws: seq<Word>, w: int)
    requires 0 <= w < |ws| && ws[w] != 0
    ensures 64 * w + CountrZero(ws[w]) in Members(ws)
  {
    CountrZeroLowest(ws[w]);
    var i := 64 * w + CountrZero(ws[w]);
    assert i / 64 == w && i % 64 == CountrZero(ws[w]);
  }

  /** One set is a subset of the other exactly when no word has a bit outside the other's word. */
  lemma SubsetByWords(ws: seq<Word>, os: seq<Word>)
    requires |ws| == |os|
    ensures (Members(ws) <= Members(os)) == (forall w :: 0 <= w < |ws| ==> WordAnd(ws[w], WordNot(os[w])) == 0)
  {
    if forall w :: 0 <= w < |ws| ==> WordAnd(ws[w], WordNot(os[w])) == 0 {
      forall i | i in Members(ws)
        ensures i in Members(os)
      {
        var w := i / 64;
        WordZero(WordAnd(ws[w], WordNot(os[w])));
        BitwiseBit(AndOp, ws[w], WordNot(os[w]), 64, i % 64);
        BitwiseBit(NotOp, os[w], 0, 64, i % 64);
      }
    } else {
      var w :| 0 <= w < |ws| && WordAnd(ws[w], WordNot(os[w])) != 0;
      var x := WordAnd(ws[w], WordNot(os[w]));
      CountrZeroLowest(x);
      var c := CountrZero(x);
      BitwiseBit(AndOp, ws[w], WordNot(os[w]), 64, c);
      BitwiseBit(NotOp, os[w], 0, 64, c);
      var i := 64 * w + c;
      assert i / 64 == w && i % 64 == c;
      assert i in Members(ws) && i !in Members(os);
    }
  }

  /** The members below `m`. */
  function MembersBelow(ws: seq<Word>, m: int): set<int>
  {
    set i | 0 <= i < m && Has(ws, i)
  }

  /** Sum of the popcounts of the first `w` words. */
  function WordsPop(ws: seq<Word>, w: nat): nat
    requires w <= |ws|
  {
    if w == 0 then 0 else WordsPop(ws, w - 1) + PopCount(ws[w - 1])
  }

  lemma MembersBelowStep(ws: seq<Word>, m: nat)
    ensures |MembersBelow(ws, m + 1)| == |MembersBelow(ws, m)| + (if Has(ws, m) then 1 else 0)
  {
    if Has(ws, m) {
      assert MembersBelow(ws, m + 1) == MembersBelow(ws, m) + {m};
    } else {
      assert MembersBelow(ws, m + 1) == MembersBelow(ws, m);
    }
  }

  /** Counting bit by bit inside word `w` agrees with counting members. */
  lemma {:induction false} MembersBelowWord(ws: seq<Word>, w: nat, k: nat)
    requires w < |ws| && k <= 64
    ensures |MembersBelow(ws, 64 * w + k)| == |MembersBelow(ws, 64 * w)| + BitsBelow(ws[w], k)
  {
    if k > 0 {
      MembersBelowWord(ws, w, k - 1);
      MembersBelowStep(ws, 64 * w + k - 1);
      assert (64 * w + k - 1) / 64 == w;
      assert (64 * w + k - 1) % 64 == k - 1;
    }
  }

  /** The popcount sum of the first `w` words counts the members below `64 * w`. */
  lemma {:induction false} MembersBelowWords(ws: seq<Word>, w: nat)
    requires w <= |ws|
    ensures |MembersBelow(ws, 64 * w)| == WordsPop(ws, w)
  {
    if w == 0 {
      assert MembersBelow(ws, 0) == {};
    } else {
      MembersBelowWords(ws, w - 1);
      MembersBelowWord(ws, w - 1, 64);
    }
  }

  lemma SizeIsPopCount(ws: seq<Word>)
    ensures |Members(ws)| == WordsPop(ws, |ws|)
  {
    MembersBelowWords(ws, |ws|);
    assert MembersBelow(ws, 64 * |ws|) == Members(ws);
  }

  /**
   * `first_set_aux(x, from)`: `countr_zero(x & ~((ONE << from) - 1))`, the
   * first set bit of `x` at or after `from`, or 64 when there is none.
   */
  function FirstSetAux(x: Word, from: nat): (r: nat)
    requires from < 64
    ensures from <= r <= 64
    ensures r < 64 ==> Bit(x, r)
    ensures forall j :: from <= j < r ==> !Bit(x, j)
  {
    var lb := Shl(from);
    var mask := lb - 1;
    var y := WordAnd(x, WordNot(mask));
    CountrZeroLowest(y);
    LowMaskBit(from, CountrZero(y));
    BitwiseBit(AndOp, x, WordNot(mask), 64, CountrZero(y));
    BitwiseBit(NotOp, mask, 0, 64, CountrZero(y));
    FirstSetAuxBelow(x, from, y);
    CountrZero(y)
  }

  lemma FirstSetAuxBelow(x: Word, from: nat, y: Word)
    requires from < 64
    requires y == WordAnd(x, WordNot(Shl(from) - 1))
    ensures forall j :: 0 <= j < 64 ==> Bit(y, j) == (Bit(x, j) && j >= from)
  {
    forall j | 0 <= j < 64
      ensures Bit(y, j) == (Bit(x, j) && j >= from)
    {
      LowMaskBit(from, j);
      BitwiseBit(AndOp, x, WordNot(Shl(from) - 1), 64, j);
      BitwiseBit(NotOp, Shl(from) - 1, 0, 64, j);
    }
  }

  // ---------------------------------------------------------------------------
  // The class
  // ---------------------------------------------------------------------------

  class LongBitset {
    /** The word array `b[4*N]`; the array itself is never replaced. */
    const b: array<Word>

    ghost predicate Valid()
    {
      b.Length == WORDS
    }

    /** The set of indices this bit set holds. */
    function Elems(): set<int>
      reads b
    {
      Members(b[..])
    }

    /** `LongBitset() : b{}`: all words zero. */
    constructor ()
      ensures Valid() && fresh(b)
      ensures Elems() == {}
    {
      b := new Word[WORDS](_ => 0);
      new;
      forall i | 0 <= i < 64 * WORDS
        ensures !Has(b[..], i)
      {
        NoBitOfZero(i % 64);
      }
    }

    /** The copy made by `LongBitset res = *this`. */
    constructor CopyOf(src: LongBitset)
      requires src.Valid()
      ensures Valid() && fresh(b)
      ensures b[..] == src.b[..]
    {
      b := new Word[WORDS](i reads src.b => if 0 <= i < src.b.Length then src.b[i] else 0);
    }

    method Contains(i: int) returns (r: bool)
      requires Valid() && 0 <= i < MAX_SIZE
      ensures r == (i in Elems())
    {
      // `b[i >> LOG_BITSIZE] & (ONE << (i & LOW_MASK))`
      var x := WordAnd(b[i / 64], Shl(i % 64));
      r := x != 0;
      WordZero(x);
      Pow2Bit(i % 64, i % 64);
      BitwiseBit(AndOp, b[i / 64], Pow2(i % 64), 64, i % 64);
      if r {
        var j :| 0 <= j < 64 && Bit(x, j);
        BitwiseBit(AndOp, b[i / 64], Pow2(i % 64), 64, j);
        Pow2Bit(i % 64, j);
      }
    }

    /** `count(i)` is `contains(i)` as 0 or 1. */
    method Count(i: int) returns (r: int)
      requires Valid() && 0 <= i < MAX_SIZE
      ensures r == (if i in Elems() then 1 else 0)
    {
      var c := Contains(i);
      r := if c then 1 else 0;
    }

    method Insert(i: int)
      requires Valid() && 0 <= i < MAX_SIZE
      modifies b
      ensures Elems() == old(Elems()) + {i}
    {
      ghost var ws := b[..];
      b[i / 64] := WordOr(b[i / 64], Shl(i % 64));
      assert b[..] == ws[i / 64 := WordOr(ws[i / 64], Shl(i % 64))];
      forall j | 0 <= j < MAX_SIZE
        ensures Has(b[..], j) == (Has(ws, j) || j == i)
      {
        HasAfterInsert(ws, i, j);
      }
    }

    method Erase(i: int)
      requires Valid() && 0 <= i < MAX_SIZE
      modifies b
      ensures Elems() == old(Elems()) - {i}
    {
      ghost var ws := b[..];
      b[i / 64] := WordAnd(b[i / 64], WordNot(Shl(i % 64)));
      assert b[..] == ws[i / 64 := WordAnd(ws[i / 64], WordNot(Shl(i % 64)))];
      forall j | 0 <= j < MAX_SIZE
        ensures Has(b[..], j) == (Has(ws, j) && j != i)
      {
        HasAfterErase(ws, i, j);
      }
    }

    /** `size()`: the sum of the popcounts of the words. */
    method Size() returns (r: int)
      requires Valid()
      ensures r == |Elems()|
    {
      r := 0;
      for w := 0 to WORDS
        invariant r == WordsPop(b[..], w)
      {
        r := r + PopCount(b[w]);
      }
      SizeIsPopCount(b[..]);
    }

    /** `empty()`: no word is nonzero. */
    method Empty() returns (r: bool)
      requires Valid()
      ensures r == (Elems() == {})
    {
      for w := 0 to WORDS
        invariant forall v :: 0 <= v < w ==> b[v] == 0
      {
        if b[w] != 0 {
          NonZeroWord(b[..], w);
          return false;
        }
      }
      forall i | 0 <= i < MAX_SIZE
        ensures !Has(b[..], i)
      {
        NoBitOfZero(i % 64);
      }
      return true;
    }

    static method Singleton(i: int) returns (s: LongBitset)
      requires 0 <= i < MAX_SIZE
      ensures fresh(s) && fresh(s.b) && s.Valid()
      ensures s.Elems() == {i}
    {
      s := new LongBitset();
      s.Insert(i);
    }

    /** `full(n)` inserts 0, 1, ..., n-1 one by one. */
    static method Full(n: int) returns (s: LongBitset)
      requires n <= MAX_SIZE
      ensures fresh(s) && fresh(s.b) && s.Valid()
      ensures forall i :: i in s.Elems() <==> 0 <= i < n
    {
      s := new LongBitset();
      var i := 0;
      while i < n
        invariant 0 <= i <= if n < 0 then 0 else n
        invariant fresh(s.b) && s.Valid()
        invariant forall j :: j in s.Elems() <==> 0 <= j < i
      {
        s.Insert(i);
        i := i + 1;
      }
    }

    // The compound operators: one pass over the words, writing into `b`.
    // `other` may be this very set, as in `x &= x`.

    method AndWith(other: LongBitset)
      requires Valid() && other.Valid()
      modifies b
      ensures b[..] == AndWords(old(b[..]), old(other.b[..]))
      ensures Elems() == old(Elems()) * old(other.Elems())
    {
      ghost var l, r := b[..], other.b[..];
      for w := 0 to WORDS
        invariant forall v :: 0 <= v < w ==> b[v] == WordAnd(l[v], r[v])
        invariant forall v :: w <= v < WORDS ==> b[v] == l[v] && other.b[v] == r[v]
      {
        b[w] := WordAnd(b[w], other.b[w]);
      }
      assert b[..] == AndWords(l, r);
      MembersAnd(l, r);
    }

    method OrWith(other: LongBitset)
      requires Valid() && other.Valid()
      modifies b
      ensures b[..] == OrWords(old(b[..]), old(other.b[..]))
      ensures Elems() == old(Elems()) + old(other.Elems())
    {
      ghost var l, r := b[..], other.b[..];
      for w := 0 to WORDS
        invariant forall v :: 0 <= v < w ==> b[v] == WordOr(l[v], r[v])
        invariant forall v :: w <= v < WORDS ==> b[v] == l[v] && other.b[v] == r[v]
      {
        b[w] := WordOr(b[w], other.b[w]);
      }
      assert b[..] == OrWords(l, r);
      MembersOr(l, r);
    }

    method XorWith(other: LongBitset)
      requires Valid() && other.Valid()
      modifies b
      ensures b[..] == XorWords(old(b[..]), old(other.b[..]))
      ensures Elems() == (old(Elems()) - old(other.Elems())) + (old(other.Elems()) - old(Elems()))
    {
      ghost var l, r := b[..], other.b[..];
      for w := 0 to WORDS
        invariant forall v :: 0 <= v < w ==> b[v] == WordXor(l[v], r[v])
        invariant forall v :: w <= v < WORDS ==> b[v] == l[v] && other.b[v] == r[v]
      {
        b[w] := WordXor(b[w], other.b[w]);
      }
      assert b[..] == XorWords(l, r);
      MembersXor(l, r);
    }

    /** `-=`: `_mm256_andnot_si256(r, l)` keeps the bits of `l` not in `r`. */
    method DiffWith(other: LongBitset)
      requires Valid() && other.Valid()
      modifies b
      ensures b[..] == DiffWords(old(b[..]), old(other.b[..]))
      ensures Elems() == old(Elems()) - old(other.Elems())
    {
      ghost var l, r := b[..], other.b[..];
      for w := 0 to WORDS
        invariant forall v :: 0 <= v < w ==> b[v] == WordAndNot(r[v], l[v])
        invariant forall v :: w <= v < WORDS ==> b[v] == l[v] && other.b[v] == r[v]
      {
        b[w] := WordAndNot(other.b[w], b[w]);
      }
      assert b[..] == DiffWords(l, r);
      MembersDiff(l, r);
    }

    // The binary operators copy the receiver and apply the compound operator
    // to the copy; neither operand changes.

    method And(other: LongBitset) returns (res: LongBitset)
      requires Valid() && other.Valid()
      ensures fresh(res) && fresh(res.b) && res.Valid()
      ensures res.Elems() == Elems() * other.Elems()
    {
      res := new LongBitset.CopyOf(this);
      res.AndWith(other);
    }

    method Or(other: LongBitset) returns (res: LongBitset)
      requires Valid() && other.Valid()
      ensures fresh(res) && fresh(res.b) && res.Valid()
      ensures res.Elems() == Elems() + other.Elems()
    {
      res := new LongBitset.CopyOf(this);
      res.OrWith(other);
    }

    method Xor(other: LongBitset) returns (res: LongBitset)
      requires Valid() && other.Valid()
      ensures fresh(res) && fresh(res.b) && res.Valid()
      ensures res.Elems() == (Elems() - other.Elems()) + (other.Elems() - Elems())
    {
      res := new LongBitset.CopyOf(this);
      res.XorWith(other);
    }

    method Diff(other: LongBitset) returns (res: LongBitset)
      requires Valid() && other.Valid()
      ensures fresh(res) && fresh(res.b) && res.Valid()
      ensures res.Elems() == Elems() - other.Elems()
    {
      res := new LongBitset.CopyOf(this);
      res.DiffWith(other);
    }

    /** `~`: every one of the 256 bits flips, also those at or above any `n`. */
    method Complement() returns (res: LongBitset)
      requires Valid()
      ensures fresh(res) && fresh(res.b) && res.Valid()
      ensures forall i :: i in res.Elems() <==> 0 <= i < MAX_SIZE && i !in Elems()
    {
      res := new LongBitset.CopyOf(this);
      ghost var l := b[..];
      for w := 0 to WORDS
        invariant forall v :: 0 <= v < w ==> res.b[v] == WordNot(l[v])
        invariant forall v :: w <= v < WORDS ==> res.b[v] == l[v]
      {
        res.b[w] := WordNot(res.b[w]);
      }
      assert res.b[..] == NotWords(l);
      MembersNot(l);
    }

    /** `<=`: no word has a bit outside the other's word. */
    method SubsetOf(other: LongBitset) returns (r: bool)
      requires Valid() && other.Valid()
      ensures r == (Elems() <= other.Elems())
    {
      SubsetByWords(b[..], other.b[..]);
      for w := 0 to WORDS
        invariant forall v :: 0 <= v < w ==> WordAnd(b[v], WordNot(other.b[v])) == 0
      {
        if WordAnd(b[w], WordNot(other.b[w])) != 0 {
          return false;
        }
      }
      return true;
    }

    /**
     * `first_set(from)`: the least member at or after `from`, or `4*N*64`
     * (the index of `end()`) when there is none.
     */
    method FirstSet(from: int) returns (r: int)
      requires Valid() && 0 <= from <= MAX_SIZE
      ensures from <= r <= MAX_SIZE
      ensures r < MAX_SIZE ==> r in Elems()
      ensures forall j :: from <= j < r ==> j !in Elems()
    {
      var inner := from / 64;   // from >> LOG_BITSIZE
      var outer := from % 64;   // from & LOW_MASK
      while inner < WORDS
        invariant inner <= WORDS && 0 <= outer < 64
        invariant inner < WORDS ==> 64 * inner + outer >= from
        invariant forall j :: from <= j < 64 * inner + outer && j < MAX_SIZE ==> !Has(b[..], j)
        decreases WORDS - inner
      {
        var res := FirstSetAux(b[inner], outer);
        forall j | 64 * inner + outer <= j < 64 * inner + res
          ensures !Has(b[..], j)
        {
          assert j / 64 == inner && j % 64 == j - 64 * inner;
        }
        if res != 64 {
          assert (res + 64 * inner) / 64 == inner && (res + 64 * inner) % 64 == res;
          return res + inner * 64;
        }
        inner := inner + 1;
        outer := 0;
      }
      return WORDS * 64;
    }

    /**
     * Walks the set as `for (int i: s)` / `begin(from)` to `end()` does: start at
     * `first_set(from)` and step with `first_set(index + 1)` until `end()`.
     */
    method Ascending(from: int) returns (xs: seq<int>)
      requires Valid() && 0 <= from <= MAX_SIZE
      ensures forall k, l :: 0 <= k < l < |xs| ==> xs[k] < xs[l]
      ensures forall x :: x in xs <==> x in Elems() && x >= from
    {
      xs := [];
      var index := FirstSet(from);
      while index != MAX_SIZE
        invariant from <= index <= MAX_SIZE
        invariant index < MAX_SIZE ==> index in Elems()
        invariant forall k, l :: 0 <= k < l < |xs| ==> xs[k] < xs[l]
        invariant forall k :: 0 <= k < |xs| ==> xs[k] < index
        invariant forall x :: x in xs <==> x in Elems() && from <= x < index
        decreases MAX_SIZE - index
      {
        ghost var prev := index;
        xs := xs + [index];
        index := FirstSet(index + 1);
        assert forall x :: x in xs <==> x in Elems() && from <= x <= prev;
      }
    }
  }
}
