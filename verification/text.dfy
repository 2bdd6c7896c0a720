/** Character classes, trimming, splitting on one character, joining and
    number rendering with the meaning JavaScript gives them. Case mapping
    covers ASCII letters only. */
module Text {

  // ---------------------------------------------------------------------------
  // Character classes
  // ---------------------------------------------------------------------------

  /** JavaScript's `\s`, which is also the set `String.prototype.trim` removes:
      white space and line terminators. */
  predicate IsSpace(c: char) {
    || c == ' ' || c == '\t' || c == '\n' || c == '\r'
    || c == '\U{000B}' || c == '\U{000C}' || c == '\U{00A0}' || c == '\U{1680}'
    || ('\U{2000}' <= c <= '\U{200A}')
    || c == '\U{2028}' || c == '\U{2029}' || c == '\U{202F}' || c == '\U{205F}'
    || c == '\U{3000}' || c == '\U{FEFF}'
  }

  predicate IsDigit(c: char) { '0' <= c <= '9' }

  predicate IsUpper(c: char) { 'A' <= c <= 'Z' }

  predicate IsLower(c: char) { 'a' <= c <= 'z' }

  /** JavaScript's `\w`: `[A-Za-z0-9_]`. */
  predicate IsWordChar(c: char) { IsUpper(c) || IsLower(c) || IsDigit(c) || c == '_' }

  predicate AllSpace(s: string) { forall i :: 0 <= i < |s| ==> IsSpace(s[i]) }

  predicate AllDigits(s: string) { forall i :: 0 <= i < |s| ==> IsDigit(s[i]) }

  // ---------------------------------------------------------------------------
  // Case mapping (ASCII)
  // ---------------------------------------------------------------------------

  function LowerChar(c: char): (r: char)
    ensures IsUpper(c) ==> IsLower(r)
    ensures !IsUpper(c) ==> r == c
  {
    if IsUpper(c) then (c as int + 32) as char else c
  }

  function UpperChar(c: char): (r: char)
    ensures IsLower(c) ==> IsUpper(r)
    ensures !IsLower(c) ==> r == c
  {
    if IsLower(c) then (c as int - 32) as char else c
  }

  function ToLower(s: string): (r: string)
    ensures |r| == |s|
    ensures forall i :: 0 <= i < |s| ==> r[i] == LowerChar(s[i])
  {
    seq(|s|, i requires 0 <= i < |s| => LowerChar(s[i]))
  }

  function ToUpper(s: string): (r: string)
    ensures |r| == |s|
    ensures forall i :: 0 <= i < |s| ==> r[i] == UpperChar(s[i])
  {
    seq(|s|, i requires 0 <= i < |s| => UpperChar(s[i]))
  }

  /** Lower-casing commutes with taking a slice. */
  lemma ToLowerSlice(s: string, i: nat, j: nat)
    requires i <= j <= |s|
    ensures ToLower(s[i..j]) == ToLower(s)[i..j]
  {
  }

  // ---------------------------------------------------------------------------
  // Trimming
  // ---------------------------------------------------------------------------

  /** True of a string with no white space at either end. */
  predicate IsTrimmed(s: string) {
    |s| == 0 || (!IsSpace(s[0]) && !IsSpace(s[|s| - 1]))
  }

  function TrimStart(s: string): (r: string)
    ensures |r| <= |s| && r == s[|s| - |r|..]
    ensures AllSpace(s[..|s| - |r|])
    ensures |r| > 0 ==> !IsSpace(r[0])
  {
    if |s| > 0 && IsSpace(s[0]) then TrimStart(s[1..]) else s
  }

  function TrimEnd(s: string): (r: string)
    ensures |r| <= |s| && r == s[..|r|]
    ensures AllSpace(s[|r|..])
    ensures |r| > 0 ==> !IsSpace(r[|r| - 1])
  {
    if |s| > 0 && IsSpace(s[|s| - 1]) then TrimEnd(s[..|s| - 1]) else s
  }

  /** `String.prototype.trim`: the text between the leading and the trailing
      white space. */
  function Trim(s: string): (r: string)
    ensures IsTrimmed(r)
    ensures |r| <= |s|
  {
    TrimEnd(TrimStart(s))
  }

  lemma {:induction false} TrimStartOfUnspaced(s: string)
    requires |s| == 0 || !IsSpace(s[0])
    ensures TrimStart(s) == s
  {
  }

  lemma {:induction false} TrimEndOfUnspaced(s: string)
    requires |s| == 0 || !IsSpace(s[|s| - 1])
    ensures TrimEnd(s) == s
  {
  }

  /** Trimming a trimmed text behind one space gives the text back. */
  lemma TrimAfterSpace(x: string)
    requires IsTrimmed(x)
    ensures Trim(" " + x) == x
  {
    assert (" " + x)[1..] == x;
    TrimStartOfUnspaced(x);
    TrimEndOfUnspaced(x);
  }

  /** Trimming changes nothing exactly when the string is already trimmed. */
  lemma TrimFixedPoint(s: string)
    ensures Trim(s) == s <==> IsTrimmed(s)
  {
    if IsTrimmed(s) {
      TrimStartOfUnspaced(s);
      TrimEndOfUnspaced(s);
    }
  }

  /** A string trims to nothing exactly when it is all white space. */
  lemma {:induction false} TrimEmptyIff(s: string)
    ensures Trim(s) == "" <==> AllSpace(s)
  {
    var t := TrimStart(s);
    if Trim(s) == "" {
      assert AllSpace(t[0..]);
      assert s == s[..|s| - |t|] + t;
    }
    if AllSpace(s) {
      TrimStartAllSpace(s);
    }
  }

  lemma {:induction false} TrimStartAllSpace(s: string)
    requires AllSpace(s)
    ensures TrimStart(s) == ""
    decreases |s|
  {
    if |s| > 0 {
      assert AllSpace(s[1..]) by {
        forall i | 0 <= i < |s[1..]| ensures IsSpace(s[1..][i]) {
          assert s[1..][i] == s[i + 1];
        }
      }
      TrimStartAllSpace(s[1..]);
    }
  }

  /** Joining two non-empty trimmed texts with one space gives a trimmed text. */
  lemma SpaceJoinTrimmed(a: string, b: string)
    requires IsTrimmed(a) && IsTrimmed(b) && |a| > 0 && |b| > 0
    ensures IsTrimmed(a + " " + b) && |a + " " + b| > 0
  {
  }

  /** Trimming at the end keeps a leading part that already ends in a
      non-space character. */
  lemma {:induction false} TrimEndKeepsHead(head: string, tail: string)
    requires |head| > 0 && !IsSpace(head[|head| - 1])
    ensures head <= TrimEnd(head + tail)
    decreases |tail|
  {
    if |tail| > 0 && IsSpace(tail[|tail| - 1]) {
      assert (head + tail)[..|head + tail| - 1] == head + tail[..|tail| - 1];
      TrimEndKeepsHead(head, tail[..|tail| - 1]);
    } else {
      assert TrimEnd(head + tail) == head + tail;
    }
  }

  /** Trimming keeps a leading part that starts and ends with non-space
      characters. */
  lemma TrimKeepsHead(head: string, tail: string)
    requires |head| > 0 && !IsSpace(head[0]) && !IsSpace(head[|head| - 1])
    ensures head <= Trim(head + tail)
  {
    TrimStartOfUnspaced(head + tail);
    TrimEndKeepsHead(head, tail);
  }

  /** A non-space character at `i` is not trimmed from the start. */
  lemma {:induction false} TrimStartKeeps(s: string, i: nat)
    requires i < |s| && !IsSpace(s[i])
    ensures |TrimStart(s)| >= |s| - i
    decreases i
  {
    if IsSpace(s[0]) {
      assert s[1..][i - 1] == s[i];
      TrimStartKeeps(s[1..], i - 1);
    }
  }

  /** A non-space character at `j` is not trimmed from the end. */
  lemma {:induction false} TrimEndKeeps(s: string, j: nat)
    requires j < |s| && !IsSpace(s[j])
    ensures |TrimEnd(s)| > j
    decreases |s|
  {
    if IsSpace(s[|s| - 1]) {
      assert s[..|s| - 1][j] == s[j];
      TrimEndKeeps(s[..|s| - 1], j);
    }
  }

  /** Two non-space characters at `i` and `j` survive trimming, together with
      everything between them. */
  lemma TrimLengthAtLeast(s: string, i: nat, j: nat)
    requires i <= j < |s| && !IsSpace(s[i]) && !IsSpace(s[j])
    ensures |Trim(s)| >= j - i + 1
  {
    var t := TrimStart(s);
    TrimStartKeeps(s, i);
    var o := |s| - |t|;
    assert o <= i && t == s[o..];
    assert t[j - o] == s[j];
    TrimEndKeeps(t, j - o);
    assert Trim(s) == TrimEnd(t);
  }

  // ---------------------------------------------------------------------------
  // Runs of one character class
  // ---------------------------------------------------------------------------

  /** The end of the run of white space that starts at `i` (`\s*` taken greedily). */
  function SpaceRunEnd(s: string, i: nat): (e: nat)
    requires i <= |s|
    ensures i <= e <= |s|
    ensures forall k :: i <= k < e ==> IsSpace(s[k])
    ensures e < |s| ==> !IsSpace(s[e])
    decreases |s| - i
  {
    if i < |s| && IsSpace(s[i]) then SpaceRunEnd(s, i + 1) else i
  }

  /** The end of the run of decimal digits that starts at `i` (`\d*` taken greedily). */
  function DigitRunEnd(s: string, i: nat): (e: nat)
    requires i <= |s|
    ensures i <= e <= |s|
    ensures forall k :: i <= k < e ==> IsDigit(s[k])
    ensures e < |s| ==> !IsDigit(s[e])
    decreases |s| - i
  {
    if i < |s| && IsDigit(s[i]) then DigitRunEnd(s, i + 1) else i
  }

  // ---------------------------------------------------------------------------
  // Searching
  // ---------------------------------------------------------------------------

  /** `String.prototype.startsWith`. */
  predicate StartsWith(s: string, prefix: string) {
    |prefix| <= |s| && s[..|prefix|] == prefix
  }

  /** `String.prototype.includes`: `sub` occurs somewhere in `s`. */
  predicate Contains(s: string, sub: string) {
    exists i :: 0 <= i <= |s| - |sub| && OccursAt(s, sub, i)
  }

  predicate OccursAt(s: string, sub: string, i: nat)
    requires i + |sub| <= |s|
  {
    s[i..i + |sub|] == sub
  }

  /** `String.prototype.includes` for a single character. */
  predicate HasChar(s: string, c: char) { c in s }

  // ---------------------------------------------------------------------------
  // Splitting on one character and joining
  // ---------------------------------------------------------------------------

  /** `s.split(c)` for a one-character separator: the maximal pieces between
      occurrences of `c`, including empty ones. */
  function Split(s: string, c: char): (r: seq<string>)
    ensures |r| >= 1
    ensures forall k :: 0 <= k < |r| ==> c !in r[k]
    decreases |s|
  {
    if |s| == 0 then [""]
    else
      var rest := Split(s[1..], c);
      if s[0] == c then [""] + rest
      else [[s[0]] + rest[0]] + rest[1..]
  }

  /** `parts.join(sep)`. */
  function Join(parts: seq<string>, sep: string): string
  {
    if |parts| == 0 then ""
    else if |parts| == 1 then parts[0]
    else parts[0] + sep + Join(parts[1..], sep)
  }

  /** Joining a list that has a first part and more after it. */
  lemma JoinCons(x: string, xs: seq<string>, sep: string)
    requires |xs| >= 1
    ensures Join([x] + xs, sep) == x + sep + Join(xs, sep)
  {
    assert ([x] + xs)[1..] == xs;
  }

  /** A character in neither the parts nor the separator is not in their join. */
  lemma {:induction false} JoinAvoids(parts: seq<string>, sep: string, c: char)
    requires c !in sep && forall k :: 0 <= k < |parts| ==> c !in parts[k]
    ensures c !in Join(parts, sep)
    decreases |parts|
  {
    if |parts| > 1 {
      JoinAvoids(parts[1..], sep, c);
    }
  }

  /** Splitting and re-joining on the same character gives back the text. */
  lemma {:induction false} JoinSplit(s: string, c: char)
    ensures Join(Split(s, c), [c]) == s
    decreases |s|
  {
    if |s| > 0 {
      var rest := Split(s[1..], c);
      JoinSplit(s[1..], c);
      if s[0] == c {
        assert Split(s, c) == [""] + rest;
        assert Join([""] + rest, [c]) == "" + [c] + Join(rest, [c]);
        assert s == [s[0]] + s[1..];
      } else {
        var parts := [[s[0]] + rest[0]] + rest[1..];
        if |rest| == 1 {
          assert Join(parts, [c]) == [s[0]] + rest[0];
          assert s == [s[0]] + s[1..];
        } else {
          assert Join(rest, [c]) == rest[0] + [c] + Join(rest[1..], [c]);
          assert parts[1..] == rest[1..];
          assert Join(parts, [c]) == [s[0]] + rest[0] + [c] + Join(rest[1..], [c]);
          assert s == [s[0]] + s[1..];
        }
      }
    }
  }

  /** A text without the separator is one piece. */
  lemma {:induction false} SplitWithout(s: string, c: char)
    requires c !in s
    ensures Split(s, c) == [s]
    decreases |s|
  {
    if |s| > 0 {
      assert c !in s[1..];
      SplitWithout(s[1..], c);
      assert [s[0]] + s[1..] == s;
    }
  }

  /** The first separator ends the first piece. */
  lemma {:induction false} SplitAtFirst(a: string, b: string, c: char)
    requires c !in a
    ensures Split(a + [c] + b, c) == [a] + Split(b, c)
    decreases |a|
  {
    var s := a + [c] + b;
    if |a| == 0 {
      assert s[0] == c && s[1..] == b;
    } else {
      assert s[0] == a[0] && s[1..] == a[1..] + [c] + b;
      assert c !in a[1..];
      SplitAtFirst(a[1..], b, c);
      assert [a[0]] + a[1..] == a;
    }
  }

  /** Splitting a join of separator-free pieces gives back the pieces. */
  lemma {:induction false} SplitJoin(parts: seq<string>, c: char)
    requires |parts| >= 1 && forall k :: 0 <= k < |parts| ==> c !in parts[k]
    ensures Split(Join(parts, [c]), c) == parts
    decreases |parts|
  {
    if |parts| == 1 {
      SplitWithout(parts[0], c);
    } else {
      SplitJoin(parts[1..], c);
      SplitAtFirst(parts[0], Join(parts[1..], [c]), c);
      assert [parts[0]] + parts[1..] == parts;
    }
  }

  // ---------------------------------------------------------------------------
  // Lines
  // ---------------------------------------------------------------------------

  /** Every line is trimmed and non-empty. */
  predicate CleanLines(lines: seq<string>) {
    forall i :: 0 <= i < |lines| ==> IsTrimmed(lines[i]) && lines[i] != ""
  }

  function TrimAllNonEmpty(parts: seq<string>): (r: seq<string>)
    ensures CleanLines(r)
    ensures |r| <= |parts|
  {
    if |parts| == 0 then []
    else
      var rest := TrimAllNonEmpty(parts[1..]);
      CleanLinesConcat(TrimmedPiece(parts[0]), rest);
      TrimmedPiece(parts[0]) + rest
  }

  /** The part trimmed, or nothing when it is blank. */
  function TrimmedPiece(p: string): (r: seq<string>)
    ensures CleanLines(r) && |r| <= 1
    ensures Trim(p) != "" ==> r == [Trim(p)]
  {
    var t := Trim(p);
    if t != "" then
      assert IsTrimmed([t][0]) && [t][0] != "";
      [t]
    else []
  }

  lemma CleanLinesConcat(a: seq<string>, b: seq<string>)
    requires CleanLines(a) && CleanLines(b)
    ensures CleanLines(a + b)
  {
    forall i | 0 <= i < |a + b|
      ensures IsTrimmed((a + b)[i]) && (a + b)[i] != ""
    {
      if i >= |a| {
        assert (a + b)[i] == b[i - |a|];
      }
    }
  }

  /** Every part that is not blank survives, trimmed. */
  lemma {:induction false} TrimAllKeeps(parts: seq<string>, i: nat)
    requires i < |parts| && Trim(parts[i]) != ""
    ensures Trim(parts[i]) in TrimAllNonEmpty(parts)
    decreases |parts|
  {
    var rest := TrimAllNonEmpty(parts[1..]);
    assert TrimAllNonEmpty(parts) == TrimmedPiece(parts[0]) + rest;
    if i > 0 {
      assert parts[1..][i - 1] == parts[i];
      TrimAllKeeps(parts[1..], i - 1);
      assert Trim(parts[i]) in rest;
    } else {
      assert TrimmedPiece(parts[0]) == [Trim(parts[i])];
    }
  }

  /** A non-empty sequence is its head followed by its tail. */
  lemma HeadTail<T>(s: seq<T>)
    requires |s| > 0
    ensures [s[0]] + s[1..] == s
  {
  }

  /** The two parts of a concatenation are its slices. */
  lemma ConcatSlices<T>(a: seq<T>, b: seq<T>)
    ensures (a + b)[..|a|] == a && (a + b)[|a|..] == b
  {
  }

  /** Lines that are already clean pass through unchanged. */
  lemma {:induction false} TrimAllOfClean(lines: seq<string>)
    requires CleanLines(lines)
    ensures TrimAllNonEmpty(lines) == lines
  {
    if |lines| > 0 {
      var head, tail := lines[0], lines[1..];
      TrimFixedPoint(head);
      CleanLinesTail(lines);
      TrimAllOfClean(tail);
      assert TrimmedPiece(head) == [head];
      assert TrimAllNonEmpty(lines) == TrimmedPiece(head) + TrimAllNonEmpty(tail);
      HeadTail(lines);
    }
  }

  lemma CleanLinesTail(lines: seq<string>)
    requires |lines| > 0 && CleanLines(lines)
    ensures CleanLines(lines[1..])
  {
    forall i | 0 <= i < |lines[1..]| ensures IsTrimmed(lines[1..][i]) && lines[1..][i] != "" {
      assert lines[1..][i] == lines[i + 1];
    }
  }

  /** `text.split('\n').map(line => line.trim()).filter(line => line)`. */
  function Lines(text: string): (r: seq<string>)
    ensures CleanLines(r)
  {
    TrimAllNonEmpty(Split(text, '\n'))
  }

  // ---------------------------------------------------------------------------
  // Duplicates
  // ---------------------------------------------------------------------------

  predicate NoDups<T(==)>(xs: seq<T>) {
    forall i, j :: 0 <= i < j < |xs| ==> xs[i] != xs[j]
  }

  /** Splitting off the head of the first of two joined lists. */
  lemma ConsSplit(a: seq<string>, b: seq<string>)
    requires |a| > 0
    ensures a == [a[0]] + a[1..]
    ensures a + b == [a[0]] + (a[1..] + b)
  {
  }

  /** Joining lists is associative. */
  lemma SeqAssoc(x: seq<string>, y: seq<string>, z: seq<string>)
    ensures x + (y + z) == (x + y) + z
  {
  }

  /** The position of the first occurrence of `x` in `xs`. */
  function FirstIndex(xs: seq<string>, x: string): (i: nat)
    requires x in xs
    ensures i < |xs| && xs[i] == x
    ensures forall j :: 0 <= j < i ==> xs[j] != x
  {
    if xs[0] == x then 0 else 1 + FirstIndex(xs[1..], x)
  }

  /** A position holding `x` with no `x` before it is the first occurrence. */
  lemma FirstIndexAt(xs: seq<string>, x: string, k: nat)
    requires k < |xs| && xs[k] == x
    requires forall j :: 0 <= j < k ==> xs[j] != x
    ensures FirstIndex(xs, x) == k
  {
  }

  /** `[...new Set(xs)]`: the distinct elements, each at its first
      occurrence, so in the order they first appear. */
  function Dedup(xs: seq<string>): (r: seq<string>)
    ensures NoDups(r)
    ensures forall x :: x in r <==> x in xs
    ensures |r| <= |xs|
    ensures forall i, j :: 0 <= i < j < |r| ==> FirstIndex(xs, r[i]) < FirstIndex(xs, r[j])
  {
    if |xs| == 0 then []
    else
      var init := xs[..|xs| - 1];
      var last := xs[|xs| - 1];
      var d := Dedup(init);
      assert xs == init + [last];
      assert forall x :: x in xs <==> x in init || x == last;
      FirstIndexOfInit(init, last);
      if last in d then d else
        assert last !in init;
        FirstIndexAt(xs, last, |init|);
        d + [last]
  }

  /** Appending an element keeps the first occurrences of what was there. */
  lemma FirstIndexOfInit(init: seq<string>, last: string)
    ensures forall x :: x in init ==> FirstIndex(init + [last], x) == FirstIndex(init, x)
  {
    forall x | x in init
      ensures FirstIndex(init + [last], x) == FirstIndex(init, x)
    {
      var k := FirstIndex(init, x);
      FirstIndexAt(init + [last], x, k);
    }
  }

  /** A duplicate-free sequence is its own de-duplication. */
  lemma {:induction false} DedupOfDistinct(xs: seq<string>)
    requires NoDups(xs)
    ensures Dedup(xs) == xs
  {
    if |xs| > 0 {
      var init := xs[..|xs| - 1];
      var last := xs[|xs| - 1];
      DistinctInit(xs);
      DedupOfDistinct(init);
      assert xs == init + [last];
      DedupSnoc(init, last);
    }
  }

  /** Without repeats, the last element is new and the rest has no repeats. */
  lemma DistinctInit(xs: seq<string>)
    requires |xs| > 0 && NoDups(xs)
    ensures NoDups(xs[..|xs| - 1]) && xs[|xs| - 1] !in xs[..|xs| - 1]
  {
    var init := xs[..|xs| - 1];
    forall k | 0 <= k < |init| ensures init[k] != xs[|xs| - 1] {
      assert init[k] == xs[k];
    }
  }

  /** A new last element is kept at the end. */
  lemma DedupSnoc(init: seq<string>, last: string)
    requires last !in init
    ensures Dedup(init + [last]) == Dedup(init) + [last]
  {
    var xs := init + [last];
    assert xs[..|xs| - 1] == init && xs[|xs| - 1] == last;
  }

  /** A duplicate-free sequence has as many elements as its element set. */
  lemma {:induction false} DistinctCardinality(xs: seq<string>)
    requires NoDups(xs)
    ensures |set x | x in xs| == |xs|
  {
    if |xs| > 0 {
      var init := xs[..|xs| - 1];
      assert NoDups(init);
      DistinctCardinality(init);
      assert (set x | x in xs) == (set x | x in init) + {xs[|xs| - 1]} by {
        assert xs == init + [xs[|xs| - 1]];
      }
      assert xs[|xs| - 1] !in (set x | x in init);
    }
  }

  // ---------------------------------------------------------------------------
  // Numbers
  // ---------------------------------------------------------------------------

  function DigitChar(d: nat): (c: char)
    requires d < 10
    ensures IsDigit(c)
  {
    ('0' as int + d) as char
  }

  function DigitValue(c: char): (d: nat)
    requires IsDigit(c)
    ensures d < 10
  {
    c as int - '0' as int
  }

  /** `String(n)` for a non-negative integer: decimal digits without leading zeros. */
  function NatToString(n: nat): (r: string)
    ensures |r| >= 1 && AllDigits(r)
    ensures |r| > 1 ==> r[0] != '0'
    decreases n
  {
    if n < 10 then [DigitChar(n)] else NatToString(n / 10) + [DigitChar(n % 10)]
  }

  /** The value of a string of decimal digits. */
  function DigitsValue(s: string): nat
    requires AllDigits(s)
  {
    if |s| == 0 then 0 else DigitsValue(s[..|s| - 1]) * 10 + DigitValue(s[|s| - 1])
  }

  /** Reading back a rendered number gives the number. */
  lemma {:induction false} NatToStringRoundTrip(n: nat)
    ensures DigitsValue(NatToString(n)) == n
    decreases n
  {
    if n >= 10 {
      var r := NatToString(n);
      NatToStringRoundTrip(n / 10);
      assert r[..|r| - 1] == NatToString(n / 10);
    }
  }

  /** Different numbers render differently. */
  lemma NatToStringInjective(m: nat, n: nat)
    ensures NatToString(m) == NatToString(n) ==> m == n
  {
    NatToStringRoundTrip(m);
    NatToStringRoundTrip(n);
  }

  /** `String(i)` for an integer. */
  function IntToString(i: int): (r: string)
    ensures |r| >= 1
    ensures i < 0 <==> r[0] == '-'
  {
    if i < 0 then "-" + NatToString(-i) else NatToString(i)
  }

  /** A rendered integer is made of digits and a leading minus sign only. */
  lemma IntToStringChars(i: int)
    ensures forall k :: 0 <= k < |IntToString(i)| ==> IntToString(i)[k] == '-' || IsDigit(IntToString(i)[k])
    ensures IsTrimmed(IntToString(i))
  {
    var r := IntToString(i);
    if i < 0 {
      assert forall k :: 1 <= k < |r| ==> r[k] == NatToString(-i)[k - 1];
    }
    assert !IsSpace(r[0]) by {
      assert r[0] == '-' || IsDigit(r[0]);
    }
    assert !IsSpace(r[|r| - 1]) by {
      assert IsDigit(r[|r| - 1]);
    }
  }

  /** `Math.round`: the nearest integer, halves rounded up. */
  function Round(x: real): (r: int)
    ensures r as real - 0.5 <= x < r as real + 0.5
  {
    (x + 0.5).Floor
  }

  /** `Math.min(100, Math.max(0, x))`. */
  function ClampPercent(x: int): (r: int)
    ensures 0 <= r <= 100
    ensures 0 <= x <= 100 ==> r == x
    ensures x < 0 ==> r == 0
    ensures x > 100 ==> r == 100
  {
    if x > 100 then 100 else if x < 0 then 0 else x
  }

  /** Rounding is monotone. */
  lemma RoundMonotone(x: real, y: real)
    requires x <= y
    ensures Round(x) <= Round(y)
  {
  }
}
