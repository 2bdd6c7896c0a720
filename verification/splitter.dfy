/** `String.prototype.split` with the separators the system uses. A split
    scans left to right, takes the leftmost match of the separator, cuts the
    text there and resumes scanning after the match, so the pieces are the
    text between consecutive non-overlapping matches. */
module Splitter {
  import opened Wrappers
  import opened Text

  datatype Separator =
    | TripleDash    // the string "---"
    | BlankLines    // /\n\s*\n/
    | DashRun       // /[-=]{2,}/
    | Enumeration   // /\n\s*\d+\.\s*/
    | SpaceRun      // /\s+/

  predicate IsDashOrEquals(c: char) { c == '-' || c == '=' }

  function DashRunEnd(s: string, i: nat): (e: nat)
    requires i <= |s|
    ensures i <= e <= |s|
    ensures forall k :: i <= k < e ==> IsDashOrEquals(s[k])
    ensures e < |s| ==> !IsDashOrEquals(s[e])
    decreases |s| - i
  {
    if i < |s| && IsDashOrEquals(s[i]) then DashRunEnd(s, i + 1) else i
  }

  /** The last line feed among positions `lo` to `hi - 1`, if there is one. */
  function LastNewline(s: string, lo: nat, hi: nat): (r: Option<nat>)
    requires lo <= hi <= |s|
    ensures r.Some? ==> lo <= r.value < hi && s[r.value] == '\n'
                        && forall k :: r.value < k < hi ==> s[k] != '\n'
    ensures r.None? ==> forall k :: lo <= k < hi ==> s[k] != '\n'
    decreases hi - lo
  {
    if hi == lo then None
    else if s[hi - 1] == '\n' then Some(hi - 1)
    else LastNewline(s, lo, hi - 1)
  }

  /** The length of the separator match that starts exactly at `p`, or 0 when
      none starts there. Each regular expression is resolved the way a
      backtracking matcher resolves it:
      - `\n\s*\n`: `\s*` first takes the whole run of white space after the
        line feed and then gives characters back until a line feed follows,
        so the match ends just after the LAST line feed of that run;
      - `[-=]{2,}`: the whole run of dashes and equals signs, if it has two;
      - `\n\s*\d+\.\s*`: digits cannot be white space and a dot cannot be a
        digit, so both greedy runs are final: white space, digits (at least
        one), a dot, then the white space after it;
      - `\s+`: the whole run of white space. */
  function MatchLength(sep: Separator, s: string, p: nat): (n: nat)
    requires p < |s|
    ensures p + n <= |s|
  {
    match sep
    case TripleDash => TripleDashAt(s, p)
    case BlankLines => BlankLinesAt(s, p)
    case DashRun => DashRunAt(s, p)
    case Enumeration => EnumerationAt(s, p)
    case SpaceRun => SpaceRunEnd(s, p) - p
  }

  function TripleDashAt(s: string, p: nat): (n: nat)
    requires p < |s|
    ensures p + n <= |s|
    ensures n == 0 || n == 3
    ensures n == 3 <==> p + 3 <= |s| && s[p..p + 3] == "---"
    ensures n == 3 <==> p + 3 <= |s| && s[p] == '-' && s[p + 1] == '-' && s[p + 2] == '-'
  {
    if p + 3 <= |s| && s[p] == '-' && s[p + 1] == '-' && s[p + 2] == '-' then
      assert s[p..p + 3] == "---";
      3
    else 0
  }

  function BlankLinesAt(s: string, p: nat): (n: nat)
    requires p < |s|
    ensures p + n <= |s|
  {
    if s[p] != '\n' then 0
    else
      match LastNewline(s, p + 1, SpaceRunEnd(s, p + 1))
      case Some(l) => l + 1 - p
      case None => 0
  }

  function DashRunAt(s: string, p: nat): (n: nat)
    requires p < |s|
    ensures p + n <= |s|
  {
    var e := DashRunEnd(s, p);
    if e - p >= 2 then e - p else 0
  }

  function EnumerationAt(s: string, p: nat): (n: nat)
    requires p < |s|
    ensures p + n <= |s|
  {
    if s[p] != '\n' then 0
    else
      var k := SpaceRunEnd(s, p + 1);
      var d := DigitRunEnd(s, k);
      if d > k && d < |s| && s[d] == '.' then SpaceRunEnd(s, d + 1) - p else 0
  }

  /** The match length at every position of `s`. */
  function MatchTable(sep: Separator, s: string): (ms: seq<nat>)
    ensures |ms| == |s|
    ensures forall p :: 0 <= p < |s| ==> ms[p] == MatchLength(sep, s, p)
    ensures ValidTable(ms)
  {
    seq(|s|, p requires 0 <= p < |s| => MatchLength(sep, s, p))
  }

  /** No match runs past the end of the text. */
  predicate ValidTable(ms: seq<nat>) {
    forall p :: 0 <= p < |ms| ==> p + ms[p] <= |ms|
  }

  /** A piece of a split, as positions `lo` to `hi` of the text. */
  datatype Span = Span(lo: nat, hi: nat)

  /** The spans of the pieces, given the match lengths `ms` of the text, when
      the current piece began at `start` and scanning has reached `q`. */
  function SpansFrom(ms: seq<nat>, start: nat, q: nat): (r: seq<Span>)
    requires ValidTable(ms)
    requires start <= q <= |ms|
    ensures |r| >= 1 && r[0].lo == start && r[|r| - 1].hi == |ms|
    ensures forall k :: 0 <= k < |r| ==> r[k].lo <= r[k].hi <= |ms|
    decreases |ms| - q
  {
    if q == |ms| then [Span(start, |ms|)]
    else if ms[q] == 0 then SpansFrom(ms, start, q + 1)
    else [Span(start, q)] + SpansFrom(ms, q + ms[q], q + ms[q])
  }

  /** Span `b` starts right after the match that ends span `a`. */
  predicate Gap(ms: seq<nat>, a: Span, b: Span) {
    a.hi < |ms| && ms[a.hi] > 0 && b.lo == a.hi + ms[a.hi]
  }

  /** Consecutive spans are separated by exactly one match. */
  ghost predicate Separated(ms: seq<nat>, r: seq<Span>) {
    forall i, j {:trigger r[i], r[j]} :: 0 <= i < j < |r| && j == i + 1 ==> Gap(ms, r[i], r[j])
  }

  /** No match starts inside a span. */
  ghost predicate MatchFree(ms: seq<nat>, r: seq<Span>) {
    forall k :: 0 <= k < |r| ==> Unmatched(ms, r[k])
  }

  /** No match starts inside span `a`. */
  predicate Unmatched(ms: seq<nat>, a: Span) {
    forall p :: a.lo <= p < a.hi && p < |ms| ==> ms[p] == 0
  }

  /** Consecutive spans of a split are separated by exactly one match. */
  lemma {:induction false} SpansFromSeparated(ms: seq<nat>, start: nat, q: nat)
    requires ValidTable(ms)
    requires start <= q <= |ms|
    ensures Separated(ms, SpansFrom(ms, start, q))
    decreases |ms| - q
  {
    if q < |ms| {
      if ms[q] == 0 {
        SpansFromSeparated(ms, start, q + 1);
      } else {
        var r := SpansFrom(ms, start, q);
        var rest := SpansFrom(ms, q + ms[q], q + ms[q]);
        SpansFromSeparated(ms, q + ms[q], q + ms[q]);
        assert r == [Span(start, q)] + rest;
        forall i, j | 0 <= i < j < |r| && j == i + 1
          ensures Gap(ms, r[i], r[j])
        {
          if i > 0 {
            assert r[i] == rest[i - 1] && r[j] == rest[j - 1];
          }
        }
      }
    }
  }

  /** No match starts inside a span of a split, so every cut is at the
      leftmost match still available. */
  lemma {:induction false} SpansFromMatchFree(ms: seq<nat>, start: nat, q: nat)
    requires ValidTable(ms)
    requires start <= q <= |ms|
    requires forall p :: start <= p < q ==> ms[p] == 0
    ensures MatchFree(ms, SpansFrom(ms, start, q))
    decreases |ms| - q
  {
    if q < |ms| {
      if ms[q] == 0 {
        SpansFromMatchFree(ms, start, q + 1);
      } else {
        var r := SpansFrom(ms, start, q);
        var rest := SpansFrom(ms, q + ms[q], q + ms[q]);
        SpansFromMatchFree(ms, q + ms[q], q + ms[q]);
        assert r == [Span(start, q)] + rest;
        forall k | 0 <= k < |r|
          ensures Unmatched(ms, r[k])
        {
          if k > 0 {
            assert r[k] == rest[k - 1];
          }
        }
      }
    }
  }

  /** The spans of the pieces of `s` split on `sep`. */
  function Spans(sep: Separator, s: string): (r: seq<Span>)
    ensures |r| >= 1 && r[0].lo == 0 && r[|r| - 1].hi == |s|
    ensures forall k :: 0 <= k < |r| ==> r[k].lo <= r[k].hi <= |s|
  {
    SpansFrom(MatchTable(sep, s), 0, 0)
  }

  /** Consecutive pieces are separated by exactly one match, and no match
      starts inside a piece. */
  lemma SpansStructure(sep: Separator, s: string)
    ensures Separated(MatchTable(sep, s), Spans(sep, s)) && MatchFree(MatchTable(sep, s), Spans(sep, s))
  {
    SpansFromSeparated(MatchTable(sep, s), 0, 0);
    SpansFromMatchFree(MatchTable(sep, s), 0, 0);
  }

  /** `s.split(sep)`. */
  function Split(sep: Separator, s: string): (r: seq<string>)
    ensures |r| == |Spans(sep, s)| >= 1
    ensures forall k :: 0 <= k < |r| ==> r[k] == s[Spans(sep, s)[k].lo..Spans(sep, s)[k].hi]
  {
    var sp := Spans(sep, s);
    seq(|sp|, k requires 0 <= k < |sp| => s[sp[k].lo..sp[k].hi])
  }

  /** Joining the pieces of a split on "---" with "---" gives back the text. */
  lemma TripleDashJoin(s: string)
    ensures Join(Split(TripleDash, s), "---") == s
  {
    var sp := Spans(TripleDash, s);
    forall j | 0 <= j < |sp| - 1
      ensures sp[j].hi + 3 <= |s| && sp[j + 1].lo == sp[j].hi + 3
      ensures s[sp[j].hi..sp[j].hi + 3] == "---"
    {
      TripleDashGap(s, j);
    }
    JoinFrom(s, sp, Split(TripleDash, s), 0);
  }

  /** Consecutive pieces of a split on "---" are cut around one "---". */
  lemma TripleDashGap(s: string, j: nat)
    requires j + 1 < |Spans(TripleDash, s)|
    ensures var sp := Spans(TripleDash, s);
            && sp[j].hi + 3 <= |s| && sp[j + 1].lo == sp[j].hi + 3
            && s[sp[j].hi..sp[j].hi + 3] == "---"
  {
    var sp := Spans(TripleDash, s);
    SpansStructure(TripleDash, s);
    assert Gap(MatchTable(TripleDash, s), sp[j], sp[j + 1]);
  }

  /** The pieces from the `k`-th on, joined by "---", are the text from the
      start of the `k`-th piece, when consecutive pieces are cut around one
      "---" each. */
  lemma {:induction false} JoinFrom(s: string, sp: seq<Span>, parts: seq<string>, k: nat)
    requires |parts| == |sp| && k < |sp|
    requires forall j :: 0 <= j < |sp| ==> sp[j].lo <= sp[j].hi <= |s|
    requires forall j :: 0 <= j < |sp| ==> parts[j] == s[sp[j].lo..sp[j].hi]
    requires sp[|sp| - 1].hi == |s|
    requires forall j :: 0 <= j < |sp| - 1 ==> sp[j].hi + 3 <= |s| && sp[j + 1].lo == sp[j].hi + 3
    requires forall j :: 0 <= j < |sp| - 1 ==> s[sp[j].hi..sp[j].hi + 3] == "---"
    ensures Join(parts[k..], "---") == s[sp[k].lo..]
    decreases |sp| - k
  {
    if k == |sp| - 1 {
      assert parts[k..] == [parts[k]];
    } else {
      JoinFrom(s, sp, parts, k + 1);
      assert parts[k..][1..] == parts[k + 1..];
      SliceThree(s, sp[k].lo, sp[k].hi, sp[k].hi + 3);
    }
  }

  /** A suffix cut into three consecutive parts. */
  lemma SliceThree(s: string, a: nat, b: nat, c: nat)
    requires a <= b <= c <= |s|
    ensures s[a..] == s[a..b] + s[b..c] + s[c..]
  {
  }

  /** No piece of a split on "---" contains "---". */
  lemma TripleDashPiecesFree(s: string, k: nat)
    requires k < |Split(TripleDash, s)|
    ensures !Contains(Split(TripleDash, s)[k], "---")
  {
    var piece := Split(TripleDash, s)[k];
    forall i | 0 <= i <= |piece| - 3
      ensures !OccursAt(piece, "---", i)
    {
      NoTripleDashAt(s, k, i);
    }
  }

  /** No "---" starts at position `i` of a piece of a split on "---". */
  lemma NoTripleDashAt(s: string, k: nat, i: nat)
    requires k < |Split(TripleDash, s)|
    requires i + 3 <= |Split(TripleDash, s)[k]|
    ensures !OccursAt(Split(TripleDash, s)[k], "---", i)
  {
    PieceUnmatched(TripleDash, s, k, i);
    PieceUnmatched(TripleDash, s, k, i + 1);
    PieceUnmatched(TripleDash, s, k, i + 2);
    DashesAt(Split(TripleDash, s)[k], i);
  }

  /** An occurrence of "---" is three dashes in a row. */
  lemma DashesAt(t: string, i: nat)
    requires i + 3 <= |t|
    ensures OccursAt(t, "---", i) ==> t[i] == '-' && t[i + 1] == '-' && t[i + 2] == '-'
  {
  }

  /** Each character of a piece is a character of the text at which no match
      starts. */
  lemma PieceUnmatched(sep: Separator, s: string, k: nat, i: nat)
    requires k < |Split(sep, s)| && i < |Split(sep, s)[k]|
    ensures Spans(sep, s)[k].lo + i < |s|
    ensures Split(sep, s)[k][i] == s[Spans(sep, s)[k].lo + i]
    ensures MatchLength(sep, s, Spans(sep, s)[k].lo + i) == 0
  {
    SpansStructure(sep, s);
    var p := Spans(sep, s)[k].lo + i;
    assert MatchTable(sep, s)[p] == 0;
  }

  /** The pieces of a split on white space hold no white space. */
  lemma SpaceRunPiecesNoSpace(s: string, k: nat, i: nat)
    requires k < |Split(SpaceRun, s)| && i < |Split(SpaceRun, s)[k]|
    ensures !IsSpace(Split(SpaceRun, s)[k][i])
  {
    PieceUnmatched(SpaceRun, s, k, i);
  }

  /** A piece of a split on white space with two characters sits on two
      adjacent non-space characters of the text. */
  lemma SpaceRunPieceAt(s: string, k: nat)
    requires k < |Split(SpaceRun, s)| && |Split(SpaceRun, s)[k]| >= 2
    ensures exists p :: 0 <= p && p + 1 < |s| && !IsSpace(s[p]) && !IsSpace(s[p + 1])
  {
    var lo := Spans(SpaceRun, s)[k].lo;
    SpaceRunPiecesNoSpace(s, k, 0);
    SpaceRunPiecesNoSpace(s, k, 1);
    assert Split(SpaceRun, s)[k][0] == s[lo] && Split(SpaceRun, s)[k][1] == s[lo + 1];
  }
}
