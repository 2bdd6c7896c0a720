/** The student's dashboard: attempts per paper, the latest submission of a
    paper, the take/retake button, the average percentage and the recent
    submissions. Times are integers supplied by the caller. */
module StudentDashboard {
  import opened Wrappers
  import opened Stats
  import PaperModel
  import SubmissionsRoute

  /** A submission as the dashboard lists it. */
  datatype Sub = Sub(paperId: nat, percentage: int, submittedAt: int, attemptNumber: int)

  /** A submission belongs to a paper. */
  predicate Of(s: Sub, paperId: nat) { s.paperId == paperId }

  /** `getSubmissionCount`: the submissions of one paper. */
  function SubmissionCount(subs: seq<Sub>, paperId: nat): (n: nat)
    ensures n <= |subs|
    ensures n == 0 <==> forall i :: 0 <= i < |subs| ==> !Of(subs[i], paperId)
  {
    if |subs| == 0 then 0
    else
      assert forall i :: 1 <= i < |subs| ==> subs[i] == subs[1..][i - 1];
      (if Of(subs[0], paperId) then 1 else 0) + SubmissionCount(subs[1..], paperId)
  }

  /** Counting submissions is compatible with concatenation. */
  lemma {:induction false} CountAppend(a: seq<Sub>, b: seq<Sub>, paperId: nat)
    ensures SubmissionCount(a + b, paperId) == SubmissionCount(a, paperId) + SubmissionCount(b, paperId)
  {
    if |a| > 0 {
      assert (a + b)[1..] == a[1..] + b;
      CountAppend(a[1..], b, paperId);
    } else {
      assert a + b == b;
    }
  }

  /** `getLatestSubmission`: the paper's submission with the latest time,
      the earliest listed among equal times (the sort is stable), or none. */
  method LatestSubmission(subs: seq<Sub>, paperId: nat) returns (r: Option<Sub>)
    ensures r.None? <==> forall i :: 0 <= i < |subs| ==> !Of(subs[i], paperId)
    ensures r.Some? ==>
              exists k :: 0 <= k < |subs| && subs[k] == r.value && Of(subs[k], paperId)
                && (forall j :: 0 <= j < |subs| && Of(subs[j], paperId) ==> subs[j].submittedAt <= r.value.submittedAt)
                && (forall j :: 0 <= j < k && Of(subs[j], paperId) ==> subs[j].submittedAt < r.value.submittedAt)
  {
    r := None;
    var best := 0;
    for i := 0 to |subs|
      invariant r.None? <==> forall j :: 0 <= j < i ==> !Of(subs[j], paperId)
      invariant r.Some? ==> best < i && subs[best] == r.value && Of(subs[best], paperId)
      invariant r.Some? ==> forall j :: 0 <= j < i && Of(subs[j], paperId) ==> subs[j].submittedAt <= r.value.submittedAt
      invariant r.Some? ==> forall j :: 0 <= j < best && Of(subs[j], paperId) ==> subs[j].submittedAt < r.value.submittedAt
    {
      if Of(subs[i], paperId) && (r.None? || subs[i].submittedAt > r.value.submittedAt) {
        r := Some(subs[i]);
        best := i;
      }
    }
  }

  /** The button shown for a paper. */
  datatype Button = TakePaper | Retake | Expired | MaxAttempts

  /** The button for a paper with `count` earlier attempts: a link while
      attempts are left and the due time has not passed, otherwise a
      disabled label naming the reason, expiry first. */
  function ButtonFor(count: nat, allowedAttempts: int, now: int, dueDate: int): (b: Button)
    ensures b in {TakePaper, Retake} <==> count < allowedAttempts && now <= dueDate
    ensures b == Retake <==> count < allowedAttempts && now <= dueDate && count > 0
    ensures b == Expired <==> !(count < allowedAttempts && now <= dueDate) && now > dueDate
    ensures b == MaxAttempts <==> count >= allowedAttempts && now <= dueDate
  {
    var canTake := count < allowedAttempts;
    var isExpired := now > dueDate;
    if canTake && !isExpired then (if count > 0 then Retake else TakePaper)
    else if isExpired then Expired
    else MaxAttempts
  }

  /** For an active paper the link shows exactly when the server would
      accept a submission made now. */
  lemma ButtonAgreesWithServer(paper: PaperModel.Paper, count: nat, now: int)
    requires paper.isActive
    ensures ButtonFor(count, paper.allowedAttempts, now, paper.dueDate) in {TakePaper, Retake}
            <==> SubmissionsRoute.Gate(Some(paper), count, now).None?
  {
  }

  /** The percentages, in order. */
  function Percentages(subs: seq<Sub>): (r: seq<int>)
    ensures |r| == |subs| && forall i :: 0 <= i < |subs| ==> r[i] == subs[i].percentage
  {
    seq(|subs|, i requires 0 <= i < |subs| => subs[i].percentage)
  }

  /** `averageScore`: the mean percentage, 0 without submissions. */
  function AverageScore(subs: seq<Sub>): (r: real)
    ensures |subs| == 0 ==> r == 0.0
    ensures AllPercent(Percentages(subs)) ==> 0.0 <= r <= 100.0
    ensures |subs| > 0 ==> r * |subs| as real == Sum(Percentages(subs)) as real
  {
    var pcts := Percentages(subs);
    assert AllPercent(pcts) ==> 0.0 <= MeanOrZero(pcts) <= 100.0 by {
      if AllPercent(pcts) {
        MeanOrZeroOfPercents(pcts);
      }
    }
    MeanOrZero(pcts)
  }

  /** How many submissions the recent list shows at most. */
  const RecentCount: nat := 5

  /** `submissions.slice(0, 5)`: the first five submissions as listed. */
  function Recent(subs: seq<Sub>): (r: seq<Sub>)
    ensures |r| == if |subs| < RecentCount then |subs| else RecentCount
    ensures forall i :: 0 <= i < |r| ==> r[i] == subs[i]
  {
    if |subs| < RecentCount then subs else subs[..RecentCount]
  }
}
