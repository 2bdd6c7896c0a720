/** The key terms of a reference answer: a global scan with the regular
    expression `\b[A-Z][a-z]+\b|\b\d+\b|\b[a-z]{4,}\b`, lower-cased and
    de-duplicated. The scan is proved equal to a plain description: the
    whole words (maximal runs of `\w` characters) that are a capitalised
    word, a number, or a lower-case word of four or more letters. */
module KeyTerms {
  import opened Text

  function LowerRunEnd(s: string, i: nat): (e: nat)
    requires i <= |s|
    ensures i <= e <= |s|
    ensures forall k :: i <= k < e ==> IsLower(s[k])
    ensures e < |s| ==> !IsLower(s[e])
    decreases |s| - i
  {
    if i < |s| && IsLower(s[i]) then LowerRunEnd(s, i + 1) else i
  }

  function WordEnd(s: string, i: nat): (e: nat)
    requires i <= |s|
    ensures i <= e <= |s|
    ensures forall k :: i <= k < e ==> IsWordChar(s[k])
    ensures e < |s| ==> !IsWordChar(s[e])
    decreases |s| - i
  {
    if i < |s| && IsWordChar(s[i]) then WordEnd(s, i + 1) else i
  }

  /** `\b` before a word character at `p`. */
  predicate BoundaryBefore(s: string, p: nat)
    requires p <= |s|
  {
    p == 0 || !IsWordChar(s[p - 1])
  }

  /** `\b` after a word character ending at `e`. */
  predicate BoundaryAfter(s: string, e: nat)
    requires e <= |s|
  {
    e == |s| || !IsWordChar(s[e])
  }

  /** The length of the match starting at `p`, or 0. The alternatives are
      tried in order; each `[a-z]` or `\d` run is greedy and giving characters
      back never helps, because the character given back is a word character
      and the closing `\b` then fails. */
  function MatchAt(s: string, p: nat): (n: nat)
    requires p < |s|
    ensures p + n <= |s|
  {
    if !BoundaryBefore(s, p) then 0
    else
      var e1 := LowerRunEnd(s, p + 1);
      var e2 := DigitRunEnd(s, p);
      var e3 := LowerRunEnd(s, p);
      if IsUpper(s[p]) && e1 > p + 1 && BoundaryAfter(s, e1) then e1 - p
      else if e2 > p && BoundaryAfter(s, e2) then e2 - p
      else if e3 - p >= 4 && BoundaryAfter(s, e3) then e3 - p
      else 0
  }

  /** `s.match(regex /g)` from position `p`: after a match the scan resumes
      at its end, otherwise one position further on. */
  function ScanFrom(s: string, p: nat): (r: seq<string>)
    requires p <= |s|
    decreases |s| - p
  {
    if p == |s| then []
    else
      var n := MatchAt(s, p);
      if n > 0 then [s[p..p + n]] + ScanFrom(s, p + n) else ScanFrom(s, p + 1)
  }

  // ---------------------------------------------------------------------------
  // The plain description
  // ---------------------------------------------------------------------------

  predicate AllLower(w: string) { forall i :: 0 <= i < |w| ==> IsLower(w[i]) }

  /** A capitalised word, a number, or a lower-case word of at least four
      letters. */
  predicate KeyShape(w: string) {
    || (|w| >= 2 && IsUpper(w[0]) && AllLower(w[1..]))
    || (|w| >= 1 && AllDigits(w))
    || (|w| >= 4 && AllLower(w))
  }

  predicate WordStart(s: string, p: nat) {
    p < |s| && IsWordChar(s[p]) && BoundaryBefore(s, p)
  }

  /** The words of `s` from position `p` on. */
  function WordsFrom(s: string, p: nat): seq<string>
    requires p <= |s|
    decreases |s| - p
  {
    if p == |s| then []
    else if WordStart(s, p) then [s[p..WordEnd(s, p)]] + WordsFrom(s, WordEnd(s, p))
    else WordsFrom(s, p + 1)
  }

  function KeyWords(ws: seq<string>): (r: seq<string>)
    ensures forall w :: w in r <==> w in ws && KeyShape(w)
  {
    if |ws| == 0 then []
    else
      assert ws == [ws[0]] + ws[1..];
      (if KeyShape(ws[0]) then [ws[0]] else []) + KeyWords(ws[1..])
  }

  /** A match starts exactly at the start of a word of key shape, and covers
      that whole word. */
  lemma MatchAtWord(s: string, p: nat)
    requires p < |s|
    ensures MatchAt(s, p) > 0 <==> WordStart(s, p) && KeyShape(s[p..WordEnd(s, p)])
    ensures MatchAt(s, p) > 0 ==> MatchAt(s, p) == WordEnd(s, p) - p
  {
    KeyWordMatches(s, p);
    MatchIsKeyWord(s, p);
  }

  /** A word of key shape is matched where it starts. */
  lemma KeyWordMatches(s: string, p: nat)
    requires p < |s|
    ensures WordStart(s, p) && KeyShape(s[p..WordEnd(s, p)]) ==> MatchAt(s, p) == WordEnd(s, p) - p
  {
    var e := WordEnd(s, p);
    var w := s[p..e];
    if WordStart(s, p) && KeyShape(w) {
      assert w[0] == s[p];
      if IsUpper(s[p]) {
        assert |w| >= 2 && AllLower(w[1..]);
        assert forall k :: p + 1 <= k < e ==> IsLower(s[k]) by {
          forall k | p + 1 <= k < e ensures IsLower(s[k]) {
            assert s[k] == w[1..][k - p - 1];
          }
        }
        LowerRunReachesWordEnd(s, p + 1, e);
      } else if IsDigit(s[p]) {
        assert AllDigits(w);
        assert forall k :: p <= k < e ==> IsDigit(s[k]) by {
          forall k | p <= k < e ensures IsDigit(s[k]) {
            assert s[k] == w[k - p];
          }
        }
        DigitRunReachesWordEnd(s, p, e);
      } else {
        assert |w| >= 4 && AllLower(w);
        assert forall k :: p <= k < e ==> IsLower(s[k]) by {
          forall k | p <= k < e ensures IsLower(s[k]) {
            assert s[k] == w[k - p];
          }
        }
        LowerRunReachesWordEnd(s, p, e);
        assert DigitRunEnd(s, p) == p;
      }
    }
  }

  /** Whatever the regular expression matches is a whole word of key shape. */
  lemma MatchIsKeyWord(s: string, p: nat)
    requires p < |s|
    ensures MatchAt(s, p) > 0 ==> WordStart(s, p) && KeyShape(s[p..WordEnd(s, p)]) && MatchAt(s, p) == WordEnd(s, p) - p
  {
    if BoundaryBefore(s, p) {
      var e1 := LowerRunEnd(s, p + 1);
      var e2 := DigitRunEnd(s, p);
      var e3 := LowerRunEnd(s, p);
      if IsUpper(s[p]) && e1 > p + 1 && BoundaryAfter(s, e1) {
        WordEndAt(s, p, e1);
        assert AllLower(s[p..e1][1..]);
      } else if e2 > p && BoundaryAfter(s, e2) {
        WordEndAt(s, p, e2);
        assert AllDigits(s[p..e2]);
      } else if e3 - p >= 4 && BoundaryAfter(s, e3) {
        WordEndAt(s, p, e3);
        assert AllLower(s[p..e3]);
      }
    }
  }

  /** A run of word characters followed by a boundary ends where the word
      ends. */
  lemma WordEndAt(s: string, p: nat, e: nat)
    requires p < e <= |s| && BoundaryAfter(s, e)
    requires forall k :: p <= k < e ==> IsWordChar(s[k])
    ensures WordEnd(s, p) == e
  {
    var we := WordEnd(s, p);
  }

  lemma LowerRunReachesWordEnd(s: string, i: nat, e: nat)
    requires i <= e <= |s| && BoundaryAfter(s, e)
    requires forall k :: i <= k < e ==> IsLower(s[k])
    ensures LowerRunEnd(s, i) == e
  {
    var le := LowerRunEnd(s, i);
  }

  lemma DigitRunReachesWordEnd(s: string, i: nat, e: nat)
    requires i <= e <= |s| && BoundaryAfter(s, e)
    requires forall k :: i <= k < e ==> IsDigit(s[k])
    ensures DigitRunEnd(s, i) == e
  {
    var de := DigitRunEnd(s, i);
  }

  /** Positions where no match starts are skipped. */
  lemma {:induction false} ScanSkip(s: string, p: nat, e: nat)
    requires p <= e <= |s|
    requires forall q :: p <= q < e ==> MatchAt(s, q) == 0
    ensures ScanFrom(s, p) == ScanFrom(s, e)
    decreases e - p
  {
    if p < e {
      ScanSkip(s, p + 1, e);
    }
  }

  /** At a word of key shape the scan takes the whole word. */
  lemma ScanAtKeyWord(s: string, p: nat)
    requires WordStart(s, p) && KeyShape(s[p..WordEnd(s, p)])
    ensures ScanFrom(s, p) == [s[p..WordEnd(s, p)]] + ScanFrom(s, WordEnd(s, p))
  {
    KeyWordMatches(s, p);
  }

  /** At any other word the scan finds nothing before the word's end. */
  lemma ScanAtOtherWord(s: string, p: nat)
    requires WordStart(s, p) && !KeyShape(s[p..WordEnd(s, p)])
    ensures ScanFrom(s, p) == ScanFrom(s, WordEnd(s, p))
  {
    var e := WordEnd(s, p);
    forall q | p <= q < e ensures MatchAt(s, q) == 0 {
      MatchIsKeyWord(s, q);
    }
    ScanSkip(s, p, e);
  }

  /** Off the start of a word the scan moves on by one position. */
  lemma ScanOffWord(s: string, p: nat)
    requires p < |s| && !WordStart(s, p)
    ensures ScanFrom(s, p) == ScanFrom(s, p + 1)
  {
    MatchIsKeyWord(s, p);
  }

  /** The regular-expression scan finds exactly the words of key shape. */
  lemma {:induction false} ScanIsKeyWords(s: string, p: nat)
    requires p <= |s|
    ensures ScanFrom(s, p) == KeyWords(WordsFrom(s, p))
    decreases |s| - p
  {
    if p < |s| {
      if WordStart(s, p) {
        var e := WordEnd(s, p);
        var w := s[p..e];
        ScanIsKeyWords(s, e);
        var ws := WordsFrom(s, p);
        assert ws == [w] + WordsFrom(s, e);
        assert ws[1..] == WordsFrom(s, e);
        if KeyShape(w) {
          ScanAtKeyWord(s, p);
        } else {
          ScanAtOtherWord(s, p);
        }
      } else {
        ScanIsKeyWords(s, p + 1);
        ScanOffWord(s, p);
      }
    }
  }

  // ---------------------------------------------------------------------------
  // Key terms
  // ---------------------------------------------------------------------------

  function LowerAll(ws: seq<string>): (r: seq<string>)
    ensures |r| == |ws|
    ensures forall i :: 0 <= i < |ws| ==> r[i] == ToLower(ws[i])
  {
    seq(|ws|, i requires 0 <= i < |ws| => ToLower(ws[i]))
  }

  /** Every scanned match is a piece of the text. */
  lemma {:induction false} ScanInText(s: string, p: nat)
    requires p <= |s|
    ensures forall w :: w in ScanFrom(s, p) ==> Contains(s, w)
    decreases |s| - p
  {
    if p < |s| {
      var n := MatchAt(s, p);
      if n > 0 {
        ScanInText(s, p + n);
        assert OccursAt(s, s[p..p + n], p);
      } else {
        ScanInText(s, p + 1);
      }
    }
  }

  /** Every match of the key-term pattern, lower-cased, in text order. */
  function Matches(correct: string): seq<string> {
    LowerAll(ScanFrom(correct, 0))
  }

  /** `findKeyTerms(correctAnswer)`: the lower-cased matches without
      repeats, in the order of their first match. */
  function FindKeyTerms(correct: string): (r: seq<string>)
    ensures NoDups(r)
    ensures forall t :: t in r <==> exists w :: w in ScanFrom(correct, 0) && t == ToLower(w)
    ensures forall t :: t in r <==> t in Matches(correct)
    ensures forall i, j :: 0 <= i < j < |r| ==>
              FirstIndex(Matches(correct), r[i]) < FirstIndex(Matches(correct), r[j])
  {
    var ms := ScanFrom(correct, 0);
    var lowered := Matches(correct);
    assert forall t :: t in lowered <==> exists w :: w in ms && t == ToLower(w) by {
      forall t | t in lowered ensures exists w :: w in ms && t == ToLower(w) {
        var i :| 0 <= i < |lowered| && lowered[i] == t;
        assert ms[i] in ms;
      }
      forall t | exists w :: w in ms && t == ToLower(w) ensures t in lowered {
        var w :| w in ms && t == ToLower(w);
        var i :| 0 <= i < |ms| && ms[i] == w;
        assert lowered[i] == t;
      }
    }
    Dedup(lowered)
  }

  /** Key terms, described without the regular expression: the lower-cased
      words of key shape. */
  lemma KeyTermsAreKeyWords(correct: string)
    ensures forall t :: t in FindKeyTerms(correct)
              <==> exists w :: w in WordsFrom(correct, 0) && KeyShape(w) && t == ToLower(w)
  {
    ScanIsKeyWords(correct, 0);
  }

  /** Every key term occurs in the lower-cased text it came from. */
  lemma KeyTermsInText(correct: string)
    ensures forall t :: t in FindKeyTerms(correct) ==> Contains(ToLower(correct), t)
  {
    ScanInText(correct, 0);
    forall t | t in FindKeyTerms(correct) ensures Contains(ToLower(correct), t) {
      var w :| w in ScanFrom(correct, 0) && t == ToLower(w);
      assert Contains(correct, w);
      var i :| 0 <= i <= |correct| - |w| && OccursAt(correct, w, i);
      ToLowerSlice(correct, i, i + |w|);
      assert OccursAt(ToLower(correct), t, i);
    }
  }

  /** Example: "Paris is the capital of France since 508" has the key terms
      "paris", "capital", "france", "since" and "508"; "is", "the" and "of"
      are too short. */
  lemma KeyShapeExamples()
    ensures KeyShape("Paris") && KeyShape("508") && KeyShape("capital")
    ensures !KeyShape("the") && !KeyShape("PARIS") && !KeyShape("x1")
  {
    assert !AllLower("PARIS"[1..]) by { assert !IsLower("PARIS"[1..][0]); }
    assert !AllDigits("x1") by { assert !IsDigit("x1"[0]); }
  }
}
