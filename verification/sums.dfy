/**
 Finite sums and concatenations over sequences, the two folds the patrol
 scheduling model is built from: every linear expression of the program
 (`lpSum(... for i in I for g in G ...)`, `df['hours'].sum()`) is a `Sum`,
 and the nested loops that emit result rows are a `FlatMap`.
 */
module Sums {

  /** The sum of `f` over the elements of `s`, in order. */
  function Sum<T>(s: seq<T>, f: T -> int): int
    decreases |s|
  {
    if |s| == 0 then 0 else f(s[0]) + Sum(s[1..], f)
  }

  /** The concatenation of `f(k)` for every `k` of `s`, in order. */
  function FlatMap<T, U>(s: seq<T>, f: T -> seq<U>): seq<U>
    decreases |s|
  {
    if |s| == 0 then [] else f(s[0]) + FlatMap(s[1..], f)
  }

  /** No element occurs twice. */
  predicate Distinct<T(==)>(s: seq<T>) {
    forall j, k :: 0 <= j < k < |s| ==> s[j] != s[k]
  }

  /** Every pair of positions `j < k` is ordered by `lt`. */
  ghost predicate SortedBy<U>(s: seq<U>, lt: (U, U) -> bool) {
    forall j, k :: 0 <= j < k < |s| ==> lt(s[j], s[k])
  }

  /** The position of the first occurrence of `x` in `s`, or `|s|` when absent. */
  function IndexOf<T(==)>(s: seq<T>, x: T): (r: nat)
    ensures r <= |s|
    ensures r < |s| <==> x in s
    ensures r < |s| ==> s[r] == x && x !in s[..r]
    decreases |s|
  {
    if |s| == 0 then 0 else if s[0] == x then 0 else 1 + IndexOf(s[1..], x)
  }

  lemma IndexOfDistinct<T>(s: seq<T>, j: int)
    requires Distinct(s)
    requires 0 <= j < |s|
    ensures IndexOf(s, s[j]) == j
  {
  }

  // ---------------------------------------------------------------- Sum

  lemma {:induction false} SumAppend<T>(s: seq<T>, t: seq<T>, f: T -> int)
    ensures Sum(s + t, f) == Sum(s, f) + Sum(t, f)
    decreases |s|
  {
    if |s| == 0 {
      assert s + t == t;
    } else {
      assert (s + t)[1..] == s[1..] + t;
      SumAppend(s[1..], t, f);
    }
  }

  /** Sums agree when the summands agree on the elements summed. */
  lemma {:induction false} SumCongruence<T>(s: seq<T>, f: T -> int, g: T -> int)
    requires forall k | k in s :: f(k) == g(k)
    ensures Sum(s, f) == Sum(s, g)
    decreases |s|
  {
    if |s| != 0 {
      assert forall k | k in s[1..] :: k in s;
      SumCongruence(s[1..], f, g);
    }
  }

  lemma {:induction false} SumMonotone<T>(s: seq<T>, f: T -> int, g: T -> int)
    requires forall k | k in s :: f(k) <= g(k)
    ensures Sum(s, f) <= Sum(s, g)
    decreases |s|
  {
    if |s| != 0 {
      assert forall k | k in s[1..] :: k in s;
      SumMonotone(s[1..], f, g);
    }
  }

  /** Of two pointwise-ordered sums, the sums are equal exactly when every pair of summands is. */
  lemma {:induction false} SumEqualIff<T>(s: seq<T>, f: T -> int, g: T -> int)
    requires forall k | k in s :: f(k) <= g(k)
    ensures Sum(s, f) == Sum(s, g) <==> forall k | k in s :: f(k) == g(k)
    decreases |s|
  {
    if |s| != 0 {
      assert forall k | k in s[1..] :: k in s;
      SumEqualIff(s[1..], f, g);
      SumMonotone(s[1..], f, g);
      if Sum(s, f) == Sum(s, g) {
        forall k | k in s
          ensures f(k) == g(k)
        {
          if k != s[0] {
            assert k in s[1..];
          }
        }
      }
    }
  }

  lemma {:induction false} SumConstant<T>(s: seq<T>, f: T -> int, c: int)
    requires forall k | k in s :: f(k) == c
    ensures Sum(s, f) == |s| * c
    decreases |s|
  {
    if |s| != 0 {
      assert forall k | k in s[1..] :: k in s;
      SumConstant(s[1..], f, c);
    }
  }

  lemma SumNonNegative<T>(s: seq<T>, f: T -> int)
    requires forall k | k in s :: f(k) >= 0
    ensures Sum(s, f) >= 0
  {
  }

  /** A sum of non-negative summands bounds each of its summands. */
  lemma {:induction false} SumBoundsTerm<T>(s: seq<T>, f: T -> int, k: T)
    requires forall x | x in s :: f(x) >= 0
    requires k in s
    ensures f(k) <= Sum(s, f)
    decreases |s|
  {
    assert forall x | x in s[1..] :: x in s;
    SumNonNegative(s[1..], f);
    if k != s[0] {
      assert k in s[1..];
      SumBoundsTerm(s[1..], f, k);
    }
  }

  lemma {:induction false} SumAdd<T>(s: seq<T>, f: T -> int, g: T -> int)
    ensures Sum(s, f) + Sum(s, g) == Sum(s, k => f(k) + g(k))
    decreases |s|
  {
    if |s| != 0 {
      SumAdd(s[1..], f, g);
    }
  }

  /**
   A sum in which only the summand of `k` can be non-zero is that summand,
   provided `k` occurs once.
   */
  lemma {:induction false} SumSingle<T>(s: seq<T>, f: T -> int, k: T)
    requires Distinct(s)
    requires forall x | x in s && x != k :: f(x) == 0
    ensures Sum(s, f) == if k in s then f(k) else 0
    decreases |s|
  {
    if |s| != 0 {
      assert Distinct(s[1..]) by {
        forall i, j | 0 <= i < j < |s[1..]|
          ensures s[1..][i] != s[1..][j]
        {
          assert s[1..][i] == s[i + 1] && s[1..][j] == s[j + 1];
        }
      }
      assert forall x | x in s[1..] :: x in s;
      SumSingle(s[1..], f, k);
      if s[0] == k {
        assert forall i | 0 <= i < |s[1..]| :: s[1..][i] == s[i + 1] != s[0];
        assert k !in s[1..];
      } else if k in s {
        assert k in s[1..];
      }
    }
  }

  /** Summation order can be exchanged. */
  lemma {:induction false} SumSwap<A, B>(xs: seq<A>, ys: seq<B>, f: (A, B) -> int)
    ensures Sum(xs, a => Sum(ys, b => f(a, b))) == Sum(ys, b => Sum(xs, a => f(a, b)))
    decreases |xs|
  {
    if |xs| == 0 {
      SumConstant(ys, b => Sum(xs, a => f(a, b)), 0);
    } else {
      SumSwap(xs[1..], ys, f);
      var first: B -> int := b => f(xs[0], b);
      var rest: B -> int := b => Sum(xs[1..], a => f(a, b));
      SumAdd(ys, first, rest);
      SumCongruence(ys, k => first(k) + rest(k), b => Sum(xs, a => f(a, b)));
    }
  }

  /**
   Exchanging the order of a double sum. The summand is given twice, curried
   by rows (`rowTerms(a)(b)`) and by columns (`colTerms(b)(a)`), and the row
   and column sums are whatever the caller already has names for.
   */
  lemma SumExchange<A, B>(xs: seq<A>, ys: seq<B>, rowTerms: A -> B -> int, colTerms: B -> A -> int,
                          row: A -> int, col: B -> int)
    requires forall a, b | a in xs && b in ys :: rowTerms(a)(b) == colTerms(b)(a)
    requires forall a | a in xs :: row(a) == Sum(ys, rowTerms(a))
    requires forall b | b in ys :: col(b) == Sum(xs, colTerms(b))
    ensures Sum(xs, row) == Sum(ys, col)
  {
    var f := (a, b) => rowTerms(a)(b);
    forall a | a in xs
      ensures row(a) == Sum(ys, b => f(a, b))
    {
      SumCongruence(ys, rowTerms(a), b => f(a, b));
    }
    forall b | b in ys
      ensures col(b) == Sum(xs, a => f(a, b))
    {
      SumCongruence(xs, colTerms(b), a => f(a, b));
    }
    SumCongruence(xs, row, a => Sum(ys, b => f(a, b)));
    SumSwap(xs, ys, f);
    SumCongruence(ys, b => Sum(xs, a => f(a, b)), col);
  }

  lemma {:induction false} SumScale<T>(s: seq<T>, f: T -> int, c: int, scaled: T -> int)
    requires forall k | k in s :: scaled(k) == c * f(k)
    ensures Sum(s, scaled) == c * Sum(s, f)
    decreases |s|
  {
    if |s| != 0 {
      assert forall k | k in s[1..] :: k in s;
      SumScale(s[1..], f, c, scaled);
    }
  }

  function Indicator(b: bool): int {
    if b then 1 else 0
  }

  /** Summing an indicator over distinct elements counts the elements that satisfy it. */
  lemma {:induction false} SumIndicatorCounts<T>(s: seq<T>, p: T -> bool, f: T -> int, chosen: set<T>)
    requires Distinct(s)
    requires forall k | k in s :: f(k) == Indicator(p(k))
    requires forall k :: k in chosen <==> k in s && p(k)
    ensures Sum(s, f) == |chosen|
    decreases |s|
  {
    if |s| != 0 {
      var tail := s[1..];
      assert Distinct(tail) by {
        forall i, j | 0 <= i < j < |tail|
          ensures tail[i] != tail[j]
        {
          assert tail[i] == s[i + 1] && tail[j] == s[j + 1];
        }
      }
      assert forall k | k in tail :: k in s;
      assert forall i | 0 <= i < |tail| :: tail[i] == s[i + 1] != s[0];
      assert s[0] !in tail;
      var rest := chosen - {s[0]};
      assert forall k :: k in rest <==> k in tail && p(k);
      SumIndicatorCounts(tail, p, f, rest);
      if p(s[0]) {
        assert chosen == {s[0]} + rest;
      } else {
        assert chosen == rest;
      }
    } else {
      assert chosen == {};
    }
  }

  /** The sum of `f` over the elements of `s` over the reals. */
  function RealSum<T>(s: seq<T>, f: T -> real): real
    decreases |s|
  {
    if |s| == 0 then 0.0 else f(s[0]) + RealSum(s[1..], f)
  }

  lemma {:induction false} RealSumMonotone<T>(s: seq<T>, f: T -> real, g: T -> real)
    requires forall k | k in s :: f(k) <= g(k)
    ensures RealSum(s, f) <= RealSum(s, g)
    decreases |s|
  {
    if |s| != 0 {
      assert forall k | k in s[1..] :: k in s;
      RealSumMonotone(s[1..], f, g);
    }
  }

  lemma {:induction false} RealSumZero<T>(s: seq<T>, f: T -> real)
    requires forall k | k in s :: f(k) == 0.0
    ensures RealSum(s, f) == 0.0
    decreases |s|
  {
    if |s| != 0 {
      assert forall k | k in s[1..] :: k in s;
      RealSumZero(s[1..], f);
    }
  }

  lemma RealSumNonNegative<T>(s: seq<T>, f: T -> real)
    requires forall k | k in s :: f(k) >= 0.0
    ensures RealSum(s, f) >= 0.0
  {
  }

  lemma {:induction false} RealSumConstant<T>(s: seq<T>, f: T -> real, c: real)
    requires forall k | k in s :: f(k) == c
    ensures RealSum(s, f) == (|s| as real) * c
    decreases |s|
  {
    if |s| != 0 {
      assert forall k | k in s[1..] :: k in s;
      RealSumConstant(s[1..], f, c);
    }
  }

  /** Summing one for every element counts the elements. */
  lemma {:induction false} RealSumCount<T>(s: seq<T>, f: T -> real)
    requires forall k | k in s :: f(k) == 1.0
    ensures RealSum(s, f) == |s| as real
    decreases |s|
  {
    if |s| != 0 {
      assert forall k | k in s[1..] :: k in s;
      RealSumCount(s[1..], f);
    }
  }

  /** Of two pointwise-ordered real sums, equality holds exactly when every summand is equal. */
  lemma {:induction false} RealSumEqualIff<T>(s: seq<T>, f: T -> real, g: T -> real)
    requires forall k | k in s :: f(k) <= g(k)
    ensures RealSum(s, f) == RealSum(s, g) <==> forall k | k in s :: f(k) == g(k)
    decreases |s|
  {
    if |s| != 0 {
      assert forall k | k in s[1..] :: k in s;
      RealSumEqualIff(s[1..], f, g);
      RealSumMonotone(s[1..], f, g);
      if RealSum(s, f) == RealSum(s, g) {
        forall k | k in s
          ensures f(k) == g(k)
        {
          if k != s[0] {
            assert k in s[1..];
          }
        }
      }
    }
  }

  lemma {:induction false} RealSumAdd<T>(s: seq<T>, f: T -> real, g: T -> real)
    ensures RealSum(s, f) + RealSum(s, g) == RealSum(s, k => f(k) + g(k))
    decreases |s|
  {
    if |s| != 0 {
      RealSumAdd(s[1..], f, g);
    }
  }

  lemma {:induction false} RealSumCongruence<T>(s: seq<T>, f: T -> real, g: T -> real)
    requires forall k | k in s :: f(k) == g(k)
    ensures RealSum(s, f) == RealSum(s, g)
    decreases |s|
  {
    if |s| != 0 {
      assert forall k | k in s[1..] :: k in s;
      RealSumCongruence(s[1..], f, g);
    }
  }

  lemma {:induction false} RealSumSwap<A, B>(xs: seq<A>, ys: seq<B>, f: (A, B) -> real)
    ensures RealSum(xs, a => RealSum(ys, b => f(a, b))) == RealSum(ys, b => RealSum(xs, a => f(a, b)))
    decreases |xs|
  {
    if |xs| == 0 {
      RealSumZero(ys, b => RealSum(xs, a => f(a, b)));
    } else {
      RealSumSwap(xs[1..], ys, f);
      var first: B -> real := b => f(xs[0], b);
      var rest: B -> real := b => RealSum(xs[1..], a => f(a, b));
      RealSumAdd(ys, first, rest);
      RealSumCongruence(ys, k => first(k) + rest(k), b => RealSum(xs, a => f(a, b)));
    }
  }

  /** `SumExchange` over the reals. */
  lemma RealSumExchange<A, B>(xs: seq<A>, ys: seq<B>, rowTerms: A -> B -> real, colTerms: B -> A -> real,
                              row: A -> real, col: B -> real)
    requires forall a, b | a in xs && b in ys :: rowTerms(a)(b) == colTerms(b)(a)
    requires forall a | a in xs :: row(a) == RealSum(ys, rowTerms(a))
    requires forall b | b in ys :: col(b) == RealSum(xs, colTerms(b))
    ensures RealSum(xs, row) == RealSum(ys, col)
  {
    var f := (a, b) => rowTerms(a)(b);
    forall a | a in xs
      ensures row(a) == RealSum(ys, b => f(a, b))
    {
      RealSumCongruence(ys, rowTerms(a), b => f(a, b));
    }
    forall b | b in ys
      ensures col(b) == RealSum(xs, a => f(a, b))
    {
      RealSumCongruence(xs, colTerms(b), a => f(a, b));
    }
    RealSumCongruence(xs, row, a => RealSum(ys, b => f(a, b)));
    RealSumSwap(xs, ys, f);
    RealSumCongruence(ys, b => RealSum(xs, a => f(a, b)), col);
  }

  // ------------------------------------------------------------ FlatMap

  lemma {:induction false} FlatMapMember<T, U>(s: seq<T>, f: T -> seq<U>, u: U)
    ensures u in FlatMap(s, f) <==> exists m :: 0 <= m < |s| && u in f(s[m])
    decreases |s|
  {
    if |s| != 0 {
      FlatMapMember(s[1..], f, u);
      if exists m :: 0 <= m < |s| && u in f(s[m]) {
        var m :| 0 <= m < |s| && u in f(s[m]);
        if m > 0 {
          assert s[1..][m - 1] == s[m];
        }
      }
      if exists m :: 0 <= m < |s[1..]| && u in f(s[1..][m]) {
        var m :| 0 <= m < |s[1..]| && u in f(s[1..][m]);
        assert s[m + 1] == s[1..][m];
      }
    }
  }

  /** Summing over a concatenation sums the sums of its pieces. */
  lemma {:induction false} FlatMapSum<T, U>(s: seq<T>, f: T -> seq<U>, m: U -> int, pieces: T -> int)
    requires forall k | k in s :: pieces(k) == Sum(f(k), m)
    ensures Sum(FlatMap(s, f), m) == Sum(s, pieces)
    decreases |s|
  {
    if |s| != 0 {
      assert forall k | k in s[1..] :: k in s;
      FlatMapSum(s[1..], f, m, pieces);
      SumAppend(f(s[0]), FlatMap(s[1..], f), m);
    }
  }

  /**
   A concatenation is ordered when each piece is ordered and every element
   of an earlier piece precedes every element of a later one.
   */
  lemma {:induction false} FlatMapSorted<T, U>(s: seq<T>, f: T -> seq<U>, lt: (U, U) -> bool)
    requires forall m | 0 <= m < |s| :: SortedBy(f(s[m]), lt)
    requires forall j, k, u, v | 0 <= j < k < |s| && u in f(s[j]) && v in f(s[k]) :: lt(u, v)
    ensures SortedBy(FlatMap(s, f), lt)
    decreases |s|
  {
    if |s| != 0 {
      var head, tail := f(s[0]), FlatMap(s[1..], f);
      assert SortedBy(f(s[0]), lt);
      assert forall m | 0 <= m < |s[1..]| :: s[1..][m] == s[m + 1];
      FlatMapSorted(s[1..], f, lt);
      forall v | v in tail
        ensures forall u | u in head :: lt(u, v)
      {
        FlatMapMember(s[1..], f, v);
        var m :| 0 <= m < |s[1..]| && v in f(s[1..][m]);
        assert v in f(s[m + 1]);
      }
      var all := head + tail;
      forall j, k | 0 <= j < k < |all|
        ensures lt(all[j], all[k])
      {
        if k < |head| {
          assert all[j] == head[j] && all[k] == head[k];
        } else if j >= |head| {
          assert all[j] == tail[j - |head|] && all[k] == tail[k - |head|];
        } else {
          assert all[j] == head[j] && all[k] == tail[k - |head|];
          assert all[k] in tail;
        }
      }
    }
  }
}
