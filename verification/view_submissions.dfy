/** The lecturer's view of a paper's submissions: the average percentage,
    the pass rate, the colour of each percentage and the CSV export.
    Submission times are already formatted strings here. */
module ViewSubmissions {
  import opened Wrappers
  import opened Text
  import opened Stats
  import GradingResults

  /** A submission as the view lists it. */
  datatype Row = Row(
    name: string,
    email: string,
    studentId: Option<string>,
    department: Option<string>,
    totalScore: int,
    percentage: int,
    timeSpent: int,
    submittedAt: string,
    attemptNumber: int)

  /** The percentages, in order. */
  function Percentages(subs: seq<Row>): (r: seq<int>)
    ensures |r| == |subs| && forall i :: 0 <= i < |subs| ==> r[i] == subs[i].percentage
  {
    seq(|subs|, i requires 0 <= i < |subs| => subs[i].percentage)
  }

  // ---------------------------------------------------------------------------
  // Summary figures
  // ---------------------------------------------------------------------------

  /** `averageScore`: the mean percentage, 0 without submissions. */
  function AverageScore(subs: seq<Row>): (r: real)
    ensures |subs| == 0 ==> r == 0.0
    ensures AllPercent(Percentages(subs)) ==> 0.0 <= r <= 100.0
    ensures |subs| > 0 ==> r * |subs| as real == Sum(Percentages(subs)) as real
  {
    var pcts := Percentages(subs);
    assert AllPercent(pcts) ==> 0.0 <= MeanOrZero(pcts) <= 100.0 by {
      if AllPercent(pcts) {
        MeanOrZeroOfPercents(pcts);
      }
    }
    MeanOrZero(pcts)
  }

  /** The pass mark of the view. */
  const PassMark: int := 60

  /** `passRate`: the share of submissions at or above the pass mark, in
      percent, 0 without submissions. */
  function PassRate(subs: seq<Row>): (r: real)
    ensures 0.0 <= r <= 100.0
    ensures |subs| == 0 ==> r == 0.0
    ensures |subs| > 0 ==> (r == 100.0 <==> forall i :: 0 <= i < |subs| ==> subs[i].percentage >= PassMark)
    ensures r == 0.0 <==> forall i :: 0 <= i < |subs| ==> subs[i].percentage < PassMark
    ensures |subs| > 0 ==> r * |subs| as real == 100.0 * CountAtLeast(Percentages(subs), PassMark) as real
  {
    var pcts := Percentages(subs);
    if |subs| > 0 then
      var passed := CountAtLeast(pcts, PassMark);
      CountAllIff(pcts, PassMark);
      CountNoneIff(pcts, PassMark);
      ShareExtremes(passed, |subs|);
      (passed as real / |subs| as real) * 100.0
    else
      0.0
  }

  /** A share of `n` in percent is between 0 and 100, and at the ends only
      for none and all. */
  lemma ShareExtremes(a: nat, n: nat)
    requires 0 < n && a <= n
    ensures 0.0 <= (a as real / n as real) * 100.0 <= 100.0
    ensures (a as real / n as real) * 100.0 == 100.0 <==> a == n
    ensures (a as real / n as real) * 100.0 == 0.0 <==> a == 0
    ensures (a as real / n as real) * 100.0 * n as real == 100.0 * a as real
  {
    var q := a as real / n as real;
    QuotientAtMost(a, n, 1);
    assert q * n as real == a as real;
    if q * 100.0 == 100.0 {
      assert q == 1.0;
    }
    if a == n {
      QuotientOfSelf(n);
    }
  }

  /** Colour of a percentage in the list. */
  datatype Color = Green | Yellow | Red

  /** Green from 80, yellow from 60, red below. */
  function ScoreColor(percentage: int): Color {
    if percentage >= 80 then Green else if percentage >= 60 then Yellow else Red
  }

  /** The list colours percentages as the grading report colours scores. */
  lemma ScoreColorMatchesReport(p: int)
    ensures ScoreColor(p) == Green <==> GradingResults.GradeColor(p as real) == GradingResults.Green
    ensures ScoreColor(p) == Yellow <==> GradingResults.GradeColor(p as real) == GradingResults.Yellow
    ensures ScoreColor(p) == Red <==> GradingResults.GradeColor(p as real) == GradingResults.Red
  {
  }

  // ---------------------------------------------------------------------------
  // CSV export
  // ---------------------------------------------------------------------------

  const Quote: char := '"'

  /** The header row. */
  const Headers: seq<string> :=
    ["Student Name", "Email", "Student ID", "Department", "Score", "Percentage",
     "Time Spent (min)", "Submitted At", "Attempt"]

  /** The fields of one submission, in header order; a missing student id or
      department is written empty. */
  function Fields(sub: Row): (r: seq<string>)
    ensures |r| == |Headers|
  {
    [sub.name, sub.email, sub.studentId.GetOr(""), sub.department.GetOr(""),
     IntToString(sub.totalScore), IntToString(sub.percentage), IntToString(sub.timeSpent),
     sub.submittedAt, IntToString(sub.attemptNumber)]
  }

  /** `"${field}"`: the field between double quotes, inner quotes kept as they are. */
  function Quoted(field: string): (r: string)
    ensures |r| == |field| + 2 && r[0] == Quote && r[|r| - 1] == Quote && r[1..|r| - 1] == field
  {
    [Quote] + field + [Quote]
  }

  /** Every field quoted. */
  function QuoteAll(fields: seq<string>): (r: seq<string>)
    ensures |r| == |fields| && forall i :: 0 <= i < |fields| ==> r[i] == Quoted(fields[i])
  {
    seq(|fields|, i requires 0 <= i < |fields| => Quoted(fields[i]))
  }

  /** One CSV line: the quoted fields joined by commas. */
  function EncodeRow(fields: seq<string>): string {
    Join(QuoteAll(fields), ",")
  }

  /** `[headers, ...csvData]`: the header row, then one row per submission. */
  function Rows(subs: seq<Row>): (r: seq<seq<string>>)
    ensures |r| == |subs| + 1 && r[0] == Headers
    ensures forall i :: 0 <= i < |subs| ==> r[i + 1] == Fields(subs[i])
  {
    [Headers] + seq(|subs|, i requires 0 <= i < |subs| => Fields(subs[i]))
  }

  /** Every row encoded as a line. */
  function EncodeRows(rows: seq<seq<string>>): (r: seq<string>)
    ensures |r| == |rows| && forall i :: 0 <= i < |rows| ==> r[i] == EncodeRow(rows[i])
  {
    seq(|rows|, i requires 0 <= i < |rows| => EncodeRow(rows[i]))
  }

  /** `exportToCSV`'s content: the encoded rows joined by newlines. */
  function ExportCsv(subs: seq<Row>): string {
    Join(EncodeRows(Rows(subs)), "\n")
  }

  // ---- reading an export back ----

  /** Reads the pieces between the quotes of a line, after the leading
      empty one: each field is followed by a comma piece, the last by an
      empty piece. */
  function Unbody(pieces: seq<string>): (r: Option<seq<string>>)
    decreases |pieces|
  {
    if |pieces| == 2 && pieces[1] == "" then Some([pieces[0]])
    else if |pieces| >= 4 && pieces[1] == "," then
      match Unbody(pieces[2..])
      case Some(rest) => Some([pieces[0]] + rest)
      case None => None
    else None
  }

  /** Reads one line of quoted, comma-separated fields. */
  function DecodeRow(line: string): (r: Option<seq<string>>)
  {
    var pieces := Split(line, Quote);
    if pieces[0] == "" then Unbody(pieces[1..]) else None
  }

  /** Reads an export: one row of fields per line. */
  function ReadCsv(text: string): (r: Option<seq<seq<string>>>)
  {
    var lines := Split(text, '\n');
    if forall i :: 0 <= i < |lines| ==> DecodeRow(lines[i]).Some?
    then Some(seq(|lines|, i requires 0 <= i < |lines| => DecodeRow(lines[i]).value))
    else None
  }

  /** No field holds a quote or a line break. */
  predicate PlainFields(fields: seq<string>) {
    forall i :: 0 <= i < |fields| ==> Quote !in fields[i] && '\n' !in fields[i]
  }

  /** The text fields of a submission hold no quote and no line break. */
  predicate PlainRow(sub: Row) {
    && Quote !in sub.name && '\n' !in sub.name
    && Quote !in sub.email && '\n' !in sub.email
    && Quote !in sub.studentId.GetOr("") && '\n' !in sub.studentId.GetOr("")
    && Quote !in sub.department.GetOr("") && '\n' !in sub.department.GetOr("")
    && Quote !in sub.submittedAt && '\n' !in sub.submittedAt
  }

  /** The pieces a quoted line splits into, after the leading empty one:
      each field, then a comma, and an empty piece after the last field. */
  function Body(fields: seq<string>): (r: seq<string>)
    requires |fields| >= 1
    ensures |r| == 2 * |fields|
    decreases |fields|
  {
    if |fields| == 1 then [fields[0], ""] else [fields[0], ","] + Body(fields[1..])
  }

  /** The pieces of plain fields hold no quote. */
  lemma {:induction false} BodyPlain(fields: seq<string>)
    requires |fields| >= 1 && PlainFields(fields)
    ensures forall k :: 0 <= k < |Body(fields)| ==> Quote !in Body(fields)[k]
    decreases |fields|
  {
    if |fields| > 1 {
      assert PlainFields(fields[1..]) by {
        assert forall i :: 0 <= i < |fields[1..]| ==> fields[1..][i] == fields[i + 1];
      }
      BodyPlain(fields[1..]);
      var b := Body(fields);
      assert forall k :: 2 <= k < |b| ==> b[k] == Body(fields[1..])[k - 2];
    }
  }

  /** Reading the pieces back gives the fields. */
  lemma {:induction false} UnbodyBody(fields: seq<string>)
    requires |fields| >= 1
    ensures Unbody(Body(fields)) == Some(fields)
    decreases |fields|
  {
    if |fields| > 1 {
      var p := Body(fields);
      var rest := Body(fields[1..]);
      UnbodyBody(fields[1..]);
      assert p == [fields[0], ","] + rest;
      assert p[0] == fields[0] && p[1] == ",";
      assert p[2..] == rest;
      assert Unbody(p) == Some([fields[0]] + fields[1..]);
      assert [fields[0]] + fields[1..] == fields;
    } else {
      assert fields == [fields[0]];
    }
  }

  /** Quoting the fields one by one. */
  lemma QuoteAllCons(fields: seq<string>)
    requires |fields| >= 1
    ensures QuoteAll(fields) == [Quoted(fields[0])] + QuoteAll(fields[1..])
  {
  }

  /** A quoted line is the body pieces joined by quotes, after one quote. */
  lemma {:induction false} EncodeRowPieces(fields: seq<string>)
    requires |fields| >= 1
    ensures EncodeRow(fields) == [Quote] + Join(Body(fields), [Quote])
    decreases |fields|
  {
    var q := [Quote];
    var f := fields[0];
    if |fields| == 1 {
      assert QuoteAll(fields) == [Quoted(f)];
    } else {
      var rest := fields[1..];
      EncodeRowPieces(rest);
      QuoteAllCons(fields);
      JoinCons(Quoted(f), QuoteAll(rest), ",");
      assert EncodeRow(fields) == Quoted(f) + "," + ([Quote] + Join(Body(rest), q));
      assert Body(fields) == [f] + ([","] + Body(rest));
      JoinCons(",", Body(rest), q);
      JoinCons(f, [","] + Body(rest), q);
    }
  }

  /** Reading back a line of plain fields gives the fields. */
  lemma DecodeEncodeRow(fields: seq<string>)
    requires |fields| >= 1 && PlainFields(fields)
    ensures DecodeRow(EncodeRow(fields)) == Some(fields)
  {
    var body := Body(fields);
    var pieces := [""] + body;
    BodyPlain(fields);
    EncodeRowPieces(fields);
    JoinCons("", body, [Quote]);
    assert EncodeRow(fields) == Join(pieces, [Quote]);
    SplitJoin(pieces, Quote);
    assert pieces[1..] == body;
    UnbodyBody(fields);
  }

  /** A line of plain fields holds no line break. */
  lemma RowOneLine(fields: seq<string>)
    requires PlainFields(fields)
    ensures '\n' !in EncodeRow(fields)
  {
    JoinAvoids(QuoteAll(fields), ",", '\n');
  }

  /** The header names are plain. */
  lemma HeadersPlain()
    ensures |Headers| >= 1 && PlainFields(Headers)
  {
    forall i | 0 <= i < |Headers| ensures Quote !in Headers[i] && '\n' !in Headers[i] {
      assert forall k :: 0 <= k < |Headers[i]| ==> ' ' <= Headers[i][k] <= 'z' && Headers[i][k] != Quote;
    }
  }

  /** The fields of a submission with plain text fields are plain. */
  lemma FieldsPlain(sub: Row)
    requires PlainRow(sub)
    ensures PlainFields(Fields(sub))
  {
    IntToStringChars(sub.totalScore);
    IntToStringChars(sub.percentage);
    IntToStringChars(sub.timeSpent);
    IntToStringChars(sub.attemptNumber);
  }

  /** Reading back lines of plain, non-empty rows gives the rows. */
  lemma ReadEncoded(rows: seq<seq<string>>)
    requires |rows| >= 1
    requires forall i :: 0 <= i < |rows| ==> |rows[i]| >= 1 && PlainFields(rows[i])
    ensures ReadCsv(Join(EncodeRows(rows), "\n")) == Some(rows)
  {
    var lines := EncodeRows(rows);
    forall i | 0 <= i < |lines| ensures '\n' !in lines[i] && DecodeRow(lines[i]) == Some(rows[i]) {
      RowOneLine(rows[i]);
      DecodeEncodeRow(rows[i]);
    }
    SplitJoin(lines, '\n');
    assert "\n" == ['\n'];
    assert Split(Join(lines, "\n"), '\n') == lines;
    assert seq(|lines|, i requires 0 <= i < |lines| => DecodeRow(lines[i]).value) == rows;
  }

  /** Reading an export back gives the header row and each submission's
      fields, in order, as long as no text field holds a quote or a line
      break. */
  lemma ReadExport(subs: seq<Row>)
    requires forall i :: 0 <= i < |subs| ==> PlainRow(subs[i])
    ensures ReadCsv(ExportCsv(subs)) == Some(Rows(subs))
  {
    var rows := Rows(subs);
    HeadersPlain();
    forall i | 1 <= i < |rows| ensures |rows[i]| >= 1 && PlainFields(rows[i]) {
      FieldsPlain(subs[i - 1]);
    }
    ReadEncoded(rows);
  }

  /** A field holding a quote does not survive the export: the line no
      longer reads back. */
  lemma QuoteBreaksRow()
    ensures DecodeRow(EncodeRow(["a\"b"])) == None
  {
    var line := EncodeRow(["a\"b"]);
    assert line == "\"a\"b\"";
    SplitWithout("", Quote);
    SplitAtFirst("b", "", Quote);
    SplitAtFirst("a", "b\"", Quote);
    SplitAtFirst("", "a\"b\"", Quote);
    assert line == "" + [Quote] + ("a" + [Quote] + ("b" + [Quote] + ""));
    assert Split(line, Quote) == ["", "a", "b", ""];
  }
}
