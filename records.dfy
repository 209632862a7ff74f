/** The database rows the grading code reads and writes: questions, exam sessions
    and answers. A nullable column is an `Option`. */
module ExamRecords {
  import opened Strings
  import opened Optional

  /** A `Question` row. `questionType` is the stored string (`"objective"`,
      `"subjective"` or anything else). */
  datatype Question = Question(
    id: int,
    examId: int,
    questionType: string,
    correctAnswer: Option<string>,
    answerKey: Option<string>,
    maxScore: real)

  /** An `ExamSession` row; `endTime` is in seconds of wall-clock time. */
  datatype ExamSession = ExamSession(
    id: int,
    examId: int,
    studentId: int,
    status: string,
    endTime: Option<nat>,
    totalScore: Option<real>)

  /** An `Answer` row. */
  datatype Answer = Answer(
    id: int,
    sessionId: int,
    questionId: int,
    answerText: Option<string>,
    autoScore: Option<real>)

  const Objective: string := "objective"
  const Subjective: string := "subjective"
  const InProgress: string := "in_progress"
  const Completed: string := "completed"

  /** The sum of the maximum scores of `qs`, accumulated from the left. */
  function TotalMax(qs: seq<Question>): real {
    if qs == [] then 0.0 else TotalMax(qs[..|qs| - 1]) + qs[|qs| - 1].maxScore
  }

  /** `total / max * 100` when `max > 0`, else 0. */
  function Percentage(total: real, max: real): (p: real)
    ensures max <= 0.0 ==> p == 0.0
    ensures 0.0 <= total <= max ==> 0.0 <= p <= 100.0
    ensures max > 0.0 && total == max ==> p == 100.0
  {
    if max > 0.0 then Scaled(total, max) else 0.0
  }

  function Scaled(total: real, max: real): (p: real)
    requires max > 0.0
    ensures p == total / max * 100.0
    ensures p * max == total * 100.0
    ensures 0.0 <= total <= max ==> 0.0 <= p <= 100.0
  {
    var q := total / max;
    assert q * max == total;
    q * 100.0
  }

  /** `a.strip().lower() == b.strip().lower()`: the comparison both auto-graders use. */
  predicate SameAnswer(a: string, b: string) {
    Lower(Strip(a)) == Lower(Strip(b))
  }

  /** Surrounding white space never matters to the comparison, on either side and
      whatever it is compared with. */
  lemma SameAnswerIgnoresPadding(pre: string, a: string, post: string, b: string)
    requires forall i :: 0 <= i < |pre| ==> IsSpace(pre[i])
    requires forall i :: 0 <= i < |post| ==> IsSpace(post[i])
    ensures SameAnswer(pre + a + post, b) <==> SameAnswer(a, b)
  {
    StripPadded(pre, a, post);
  }

  /** Stripping white space around a string is stripping the string. */
  lemma StripPadded(pre: string, a: string, post: string)
    requires forall i :: 0 <= i < |pre| ==> IsSpace(pre[i])
    requires forall i :: 0 <= i < |post| ==> IsSpace(post[i])
    ensures Strip(pre + a + post) == Strip(a)
  {
    var r := Strip(a);
    var k :| TrimmedAt(a, r, k);
    TrimmedInPadding(pre, a, post, r, k);
    StripUnique(pre + a + post, r, |pre| + k);
  }

  lemma TrimmedInPadding(pre: string, a: string, post: string, r: string, k: int)
    requires TrimmedAt(a, r, k)
    requires forall i :: 0 <= i < |pre| ==> IsSpace(pre[i])
    requires forall i :: 0 <= i < |post| ==> IsSpace(post[i])
    ensures TrimmedAt(pre + a + post, r, |pre| + k)
  {
    var s := pre + a + post;
    var n := |pre|;
    assert s[n + k..n + k + |r|] == a[k..k + |r|];
    forall i | 0 <= i < n + k ensures IsSpace(s[i]) {
      if i < n { assert s[i] == pre[i]; } else { assert s[i] == a[i - n]; }
    }
    forall i | n + k + |r| <= i < |s| ensures IsSpace(s[i]) {
      if i < n + |a| { assert s[i] == a[i - n]; } else { assert s[i] == post[i - n - |a|]; }
    }
  }
}
