/** Sums, threshold counts and means over lists of integer scores, as the
    report screens compute them with `reduce` and `filter`. */
module Stats {

  /** `xs.reduce((sum, x) => sum + x, 0)`. */
  function Sum(xs: seq<int>): int {
    if |xs| == 0 then 0 else xs[0] + Sum(xs[1..])
  }

  /** Every score lies between 0 and 100. */
  predicate AllPercent(xs: seq<int>) {
    forall i :: 0 <= i < |xs| ==> 0 <= xs[i] <= 100
  }

  /** The sum of percentages is between 0 and 100 times their number. */
  lemma {:induction false} SumOfPercents(xs: seq<int>)
    requires AllPercent(xs)
    ensures 0 <= Sum(xs) <= 100 * |xs|
  {
    if |xs| > 0 {
      assert AllPercent(xs[1..]) by {
        forall i | 0 <= i < |xs[1..]| ensures 0 <= xs[1..][i] <= 100 {
          assert xs[1..][i] == xs[i + 1];
        }
      }
      SumOfPercents(xs[1..]);
    }
  }

  /** Summing is compatible with concatenation. */
  lemma {:induction false} SumAppend(a: seq<int>, b: seq<int>)
    ensures Sum(a + b) == Sum(a) + Sum(b)
  {
    if |a| > 0 {
      assert (a + b)[1..] == a[1..] + b;
      SumAppend(a[1..], b);
    } else {
      assert a + b == b;
    }
  }

  /** `xs.filter(x => x >= t).length`. */
  function CountAtLeast(xs: seq<int>, t: int): (n: nat)
    ensures n <= |xs|
  {
    if |xs| == 0 then 0 else (if xs[0] >= t then 1 else 0) + CountAtLeast(xs[1..], t)
  }

  /** Every score is counted exactly when all reach the threshold. */
  lemma {:induction false} CountAllIff(xs: seq<int>, t: int)
    ensures CountAtLeast(xs, t) == |xs| <==> forall i :: 0 <= i < |xs| ==> xs[i] >= t
  {
    if |xs| > 0 {
      CountAllIff(xs[1..], t);
      assert forall i :: 1 <= i < |xs| ==> xs[i] == xs[1..][i - 1];
    }
  }

  /** Nothing is counted exactly when no score reaches the threshold. */
  lemma {:induction false} CountNoneIff(xs: seq<int>, t: int)
    ensures CountAtLeast(xs, t) == 0 <==> forall i :: 0 <= i < |xs| ==> xs[i] < t
  {
    if |xs| > 0 {
      CountNoneIff(xs[1..], t);
      assert forall i :: 1 <= i < |xs| ==> xs[i] == xs[1..][i - 1];
    }
  }

  /** Counting is compatible with concatenation. */
  lemma {:induction false} CountAppend(a: seq<int>, b: seq<int>, t: int)
    ensures CountAtLeast(a + b, t) == CountAtLeast(a, t) + CountAtLeast(b, t)
  {
    if |a| > 0 {
      assert (a + b)[1..] == a[1..] + b;
      CountAppend(a[1..], b, t);
    } else {
      assert a + b == b;
    }
  }

  /** A higher threshold never counts more scores. */
  lemma {:induction false} CountAntitone(xs: seq<int>, s: int, t: int)
    requires s <= t
    ensures CountAtLeast(xs, t) <= CountAtLeast(xs, s)
  {
    if |xs| > 0 {
      CountAntitone(xs[1..], s, t);
    }
  }

  /** The arithmetic mean of a non-empty list. */
  function Mean(xs: seq<int>): (r: real)
    requires |xs| > 0
    ensures r * |xs| as real == Sum(xs) as real
  {
    Sum(xs) as real / |xs| as real
  }

  /** The mean of percentages is a percentage. */
  lemma MeanOfPercents(xs: seq<int>)
    requires |xs| > 0
    ensures AllPercent(xs) ==> 0.0 <= Mean(xs) <= 100.0
  {
    if AllPercent(xs) {
      SumOfPercents(xs);
      QuotientAtMost(Sum(xs), |xs|, 100);
    }
  }

  /** `0 <= a <= m * n` bounds `a / n` by `0` and `m`. */
  lemma QuotientAtMost(a: int, n: nat, m: nat)
    requires n > 0 && 0 <= a <= m * n
    ensures 0.0 <= a as real / n as real <= m as real
  {
    var q := a as real / n as real;
    assert q * n as real == a as real;
    assert (q - m as real) * n as real == a as real - (m * n) as real;
  }

  /** A positive number divided by itself gives 1. */
  lemma QuotientOfSelf(n: int)
    requires n > 0
    ensures n as real / n as real == 1.0
  {
    var q := n as real / n as real;
    assert q * n as real == n as real;
    assert (q - 1.0) * n as real == 0.0;
  }

  /** A list holding one score throughout has that score as its mean. */
  lemma {:induction false} MeanOfConstant(xs: seq<int>, c: int)
    requires |xs| > 0 && forall i :: 0 <= i < |xs| ==> xs[i] == c
    ensures Mean(xs) == c as real
  {
    SumOfConstant(xs, c);
    assert (|xs| * c) as real == |xs| as real * c as real;
  }

  lemma {:induction false} SumOfConstant(xs: seq<int>, c: int)
    requires forall i :: 0 <= i < |xs| ==> xs[i] == c
    ensures Sum(xs) == |xs| * c
  {
    if |xs| > 0 {
      assert forall i :: 0 <= i < |xs[1..]| ==> xs[1..][i] == xs[i + 1];
      SumOfConstant(xs[1..], c);
    }
  }

  /** The mean with the screens' guard: 0 for an empty list. */
  function MeanOrZero(xs: seq<int>): (r: real)
    ensures |xs| == 0 ==> r == 0.0
    ensures |xs| > 0 ==> r == Mean(xs)
    ensures |xs| > 0 ==> r * |xs| as real == Sum(xs) as real
  {
    if |xs| == 0 then 0.0 else Mean(xs)
  }

  /** The guarded mean of percentages is a percentage. */
  lemma MeanOrZeroOfPercents(xs: seq<int>)
    requires AllPercent(xs)
    ensures 0.0 <= MeanOrZero(xs) <= 100.0
  {
    if |xs| > 0 {
      MeanOfPercents(xs);
    }
  }

  /** A list bounded entry by entry by a longer list of non-negative values
      has a sum between 0 and that list's sum. */
  lemma {:induction false} SumDominated(xs: seq<int>, ys: seq<int>)
    requires |xs| <= |ys|
    requires forall i :: 0 <= i < |xs| ==> 0 <= xs[i] <= ys[i]
    requires forall j :: 0 <= j < |ys| ==> 0 <= ys[j]
    ensures 0 <= Sum(xs) <= Sum(ys)
  {
    if |ys| > 0 {
      assert forall j :: 0 <= j < |ys[1..]| ==> ys[1..][j] == ys[j + 1];
      if |xs| > 0 {
        assert forall i :: 0 <= i < |xs[1..]| ==> xs[1..][i] == xs[i + 1];
        SumDominated(xs[1..], ys[1..]);
      } else {
        SumDominated(xs, ys[1..]);
      }
    }
  }
  /** Entries all at least `t` sum to at least `t` per entry; entries all
      below `t` sum to less than that. */
  lemma {:induction false} SumBounds(xs: seq<int>, t: int)
    ensures (forall i :: 0 <= i < |xs| ==> xs[i] >= t) ==> Sum(xs) >= |xs| * t
    ensures |xs| > 0 && (forall i :: 0 <= i < |xs| ==> xs[i] < t) ==> Sum(xs) < |xs| * t
  {
    if |xs| > 0 {
      assert forall i :: 0 <= i < |xs[1..]| ==> xs[1..][i] == xs[i + 1];
      SumBounds(xs[1..], t);
    }
  }

  /** The mean of scores all at least `t` is at least `t`, and the mean of
      scores all below `t` is below `t`. */
  lemma MeanBounds(xs: seq<int>, t: int)
    requires |xs| > 0
    ensures (forall i :: 0 <= i < |xs| ==> xs[i] >= t) ==> Mean(xs) >= t as real
    ensures (forall i :: 0 <= i < |xs| ==> xs[i] < t) ==> Mean(xs) < t as real
  {
    SumBounds(xs, t);
    QuotientVersus(Sum(xs), |xs|, t);
  }

  /** Dividing by `n` compares with `t` as the dividend compares with `n * t`. */
  lemma QuotientVersus(a: int, n: nat, t: int)
    requires n > 0
    ensures a >= n * t ==> a as real / n as real >= t as real
    ensures a < n * t ==> a as real / n as real < t as real
  {
    var q := a as real / n as real;
    assert q * n as real == a as real;
    assert (q - t as real) * n as real == a as real - (n * t) as real;
    SignOfProduct(q - t as real, n as real);
  }

  /** `r` is `a / n * m` rounded to the nearest integer, halves up, said in
      integers: twice the product lies within `n` of `2 * r * n`. */
  predicate NearestShare(r: int, a: int, n: int, m: int)
  {
    (2 * r - 1) * n <= 2 * m * a < (2 * r + 1) * n
  }

  /** Rounding `a / n * m` to `r` in the reals is `NearestShare` in the
      integers. */
  lemma RoundedQuotient(a: int, n: int, m: int, r: int)
    requires n > 0
    requires r as real - 0.5 <= a as real / n as real * m as real < r as real + 0.5
    ensures (2 * r - 1) * n <= 2 * m * a < (2 * r + 1) * n
    ensures NearestShare(r, a, n, m)
  {
    var x := a as real / n as real * m as real;
    var nr := n as real;
    assert a as real / nr * nr == a as real;
    assert x * nr == (a * m) as real;
    SignOfProduct(x - (r as real - 0.5), nr);
    SignOfProduct(r as real + 0.5 - x, nr);
    assert (x - (r as real - 0.5)) * nr == (a * m) as real - (r as real - 0.5) * nr;
    assert (r as real + 0.5 - x) * nr == (r as real + 0.5) * nr - (a * m) as real;
    assert ((2 * r - 1) * n) as real == 2.0 * (r as real - 0.5) * nr;
    assert ((2 * r + 1) * n) as real == 2.0 * (r as real + 0.5) * nr;
  }

  /** A product with a positive factor has the other factor's sign. */
  lemma SignOfProduct(d: real, n: real)
    requires n > 0.0
    ensures d * n >= 0.0 <==> d >= 0.0
    ensures d * n > 0.0 <==> d > 0.0
  {
    if d < 0.0 {
      assert d * n == -((-d) * n);
    }
  }
}
