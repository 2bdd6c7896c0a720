/** The token-overlap ratio both graders use as their similarity measure:
    the reference tokens that also occur in the answer, counted with
    multiplicity, over the number of distinct tokens of the two texts. */
module Overlap {
  import opened Text

  /** `a.filter(w => b.includes(w))`. */
  function Common(a: seq<string>, b: seq<string>): (r: seq<string>)
    ensures |r| <= |a|
    ensures forall x :: x in r <==> x in a && x in b
    ensures forall x :: x in b ==> multiset(r)[x] == multiset(a)[x]
    ensures forall x :: x !in b ==> multiset(r)[x] == 0
  {
    if |a| == 0 then []
    else
      assert a == [a[0]] + a[1..];
      (if a[0] in b then [a[0]] else []) + Common(a[1..], b)
  }

  /** `[...new Set([...a, ...b])].length`. */
  function UnionSize(a: seq<string>, b: seq<string>): (n: nat)
    ensures n == |(set x | x in a) + (set x | x in b)|
  {
    var d := Dedup(a + b);
    DistinctCardinality(d);
    assert (set x | x in d) == (set x | x in a) + (set x | x in b);
    |d|
  }

  /** `union.length > 0 ? intersection.length / union.length : 0`. */
  function Ratio(a: seq<string>, b: seq<string>): (r: real)
    ensures r >= 0.0
    ensures r == 0.0 <==> UnionSize(a, b) == 0 || |Common(a, b)| == 0
    ensures UnionSize(a, b) > 0 ==> (r <= 1.0 <==> |Common(a, b)| <= UnionSize(a, b))
    ensures UnionSize(a, b) > 0 ==> (r == 1.0 <==> |Common(a, b)| == UnionSize(a, b))
    ensures UnionSize(a, b) > 0 ==> r == |Common(a, b)| as real / UnionSize(a, b) as real
    ensures UnionSize(a, b) == 0 ==> r == 0.0
  {
    Fraction(|Common(a, b)|, UnionSize(a, b))
  }

  /** `d > 0 ? n / d : 0` on naturals, described by the product it gives back. */
  function Fraction(n: nat, d: nat): (q: real)
    ensures d == 0 ==> q == 0.0
    ensures d > 0 ==> q * d as real == n as real
    ensures d > 0 ==> q >= 0.0 && (q == 0.0 <==> n == 0)
    ensures d > 0 ==> (q <= 1.0 <==> n <= d) && (q == 1.0 <==> n == d)
  {
    if d > 0 then
      QuotientFacts(n, d);
      n as real / d as real
    else 0.0
  }

  /** How a quotient of naturals compares with 0 and 1. */
  lemma QuotientFacts(n: nat, d: nat)
    requires d > 0
    ensures n as real / d as real >= 0.0
    ensures n as real / d as real == 0.0 <==> n == 0
    ensures n as real / d as real <= 1.0 <==> n <= d
    ensures n as real / d as real == 1.0 <==> n == d
    ensures (n as real / d as real) * d as real == n as real
  {
    var q := n as real / d as real;
    assert q * d as real == n as real;
  }

  /** Common tokens of a repeat-free text are repeat-free. */
  lemma {:induction false} CommonOfDistinct(a: seq<string>, b: seq<string>)
    requires NoDups(a)
    ensures NoDups(Common(a, b))
  {
    if |a| > 0 {
      assert NoDups(a[1..]);
      CommonOfDistinct(a[1..], b);
      assert a[0] !in a[1..];
    }
  }

  /** For a repeat-free reference text the ratio is at most 1. */
  lemma RatioAtMostOne(a: seq<string>, b: seq<string>)
    requires NoDups(a)
    ensures Ratio(a, b) <= 1.0
  {
    var c := Common(a, b);
    CommonOfDistinct(a, b);
    DistinctCardinality(c);
    var cs := set x | x in c;
    var u := (set x | x in a) + (set x | x in b);
    assert cs <= u;
    SubsetCardinality(cs, u);
  }

  lemma SubsetCardinality(s: set<string>, t: set<string>)
    requires s <= t
    ensures |s| <= |t|
  {
    assert t == s + (t - s);
  }

  /** A repeat-free, non-empty text compared with itself gives exactly 1. */
  lemma RatioSelf(a: seq<string>)
    requires NoDups(a) && |a| > 0
    ensures Ratio(a, a) == 1.0
  {
    var c := Common(a, a);
    assert forall x :: multiset(c)[x] == multiset(a)[x];
    assert multiset(c) == multiset(a);
    assert |c| == |multiset(c)| == |multiset(a)| == |a|;
    DistinctCardinality(a);
    assert (set x | x in a) + (set x | x in a) == (set x | x in a);
  }

  /** The ratio is 0 exactly when no reference token occurs in the answer. */
  lemma RatioZeroIffDisjoint(a: seq<string>, b: seq<string>)
    ensures Ratio(a, b) == 0.0 <==> forall x :: x in a ==> x !in b
  {
    var c := Common(a, b);
    if Ratio(a, b) == 0.0 && UnionSize(a, b) > 0 {
      assert |c| == 0;
    }
    if exists x :: x in a && x in b {
      var x :| x in a && x in b;
      assert x in c;
      assert x in (set y | y in a);
    }
  }

  /** Repeats in the reference text push the ratio above 1. */
  lemma RatioCanExceedOne()
    ensures Ratio(["atom", "atom"], ["atom"]) == 2.0
  {
    var a, b := ["atom", "atom"], ["atom"];
    assert Common(a, b) == ["atom", "atom"];
    assert (set x | x in a) + (set x | x in b) == {"atom"};
  }

  /** A sequence has at least as many elements as its element set. */
  lemma {:induction false} SetOfSeqCardinality(a: seq<string>)
    ensures |set x | x in a| <= |a|
  {
    if |a| > 0 {
      var init := a[..|a| - 1];
      SetOfSeqCardinality(init);
      assert (set x | x in a) == (set x | x in init) + {a[|a| - 1]} by {
        assert a == init + [a[|a| - 1]];
      }
    }
  }

  /** Any non-empty text compared with itself gives at least 1, and more
      than 1 when it repeats a token. */
  lemma RatioSelfAtLeastOne(a: seq<string>)
    requires |a| > 0
    ensures Ratio(a, a) >= 1.0
  {
    var c := Common(a, a);
    assert forall x :: multiset(c)[x] == multiset(a)[x];
    assert multiset(c) == multiset(a);
    assert |c| == |multiset(c)| == |multiset(a)| == |a|;
    SetOfSeqCardinality(a);
    assert (set x | x in a) + (set x | x in a) == (set x | x in a);
  }
}
