/** The two tables the graded path writes, `Result` and `StudentAnswer`, and
    the two views that write them: `submit_quiz` (quiz/views.py:595-705),
    which creates one Result and its answer rows, and `grade_short_answer`
    (quiz/views.py:1104-1140), which stores a teacher's points in place.
    The row shape is the one the views use (`is_graded`,
    `short_answer_score`, `teacher_feedback`, `custom_answer`,
    `points_earned`, `teacher_comment`). */
module Gradebook {
  import opened Base
  import opened Catalog
  import opened Grading

  /** A `Result` row. A freshly created row is ungraded, with no short-answer
      points and no feedback. */
  datatype ResultRow = ResultRow(
    id: int,
    student: int,
    quiz: int,
    score: real,
    isGraded: bool,
    shortAnswerScore: real,
    teacherFeedback: string)

  /** A `StudentAnswer` row. */
  datatype StudentAnswerRow = StudentAnswerRow(
    id: int,
    result: int,
    question: int,
    selected: Option<int>,
    customAnswer: Option<string>,
    pointsEarned: Option<real>,
    teacherComment: string)

  /** How `submit_quiz` ends: PermissionDenied for a request that is not a
      POST, a redirect for a closed quiz or a repeated submission, an
      uncaught exception (everything rolled back), or the new Result. */
  datatype SubmitOutcome =
    | NotPost
    | Closed
    | AlreadySubmitted
    | Aborted(reason: Abort)
    | Submitted(result: int)

  /** How `grade_short_answer` ends: 404 for an unknown result, the grading
      form for a GET, or the number of rows graded and their points. */
  datatype GradeOutcome =
    | ResultNotFound
    | Form
    | Graded(count: nat, total: real)

  /** `Result.objects.filter(student=..., quiz=...).exists()`. */
  predicate HasResult(results: seq<ResultRow>, student: int, quiz: int) {
    exists i :: 0 <= i < |results| && results[i].student == student && results[i].quiz == quiz
  }

  /** The checks `submit_quiz` makes before it writes anything, in order.
      `None` means the submission goes ahead. The quiz's
      `allow_multiple_attempts` flag is not among them. */
  function SubmissionGate(isPost: bool, now: int, quiz: Quiz, submitted: bool): (r: Option<SubmitOutcome>)
    ensures !isPost ==> r == Some(NotPost)
    ensures isPost && now > quiz.endTime ==> r == Some(Closed)
    ensures isPost && now <= quiz.endTime && submitted ==> r == Some(AlreadySubmitted)
    ensures r.None? <==> isPost && now <= quiz.endTime && !submitted
  {
    if !isPost then Some(NotPost)
    else if now > quiz.endTime then Some(Closed)
    else if submitted then Some(AlreadySubmitted)
    else None
  }

  /** The graded path ignores the multiple-attempts flag: a quiz that allows
      several attempts still refuses a second submission. */
  lemma GateIgnoresMultipleAttempts(isPost: bool, now: int, quiz: Quiz, submitted: bool, allow: bool)
    ensures SubmissionGate(isPost, now, quiz.(allowMultipleAttempts := allow), submitted)
         == SubmissionGate(isPost, now, quiz, submitted)
    ensures isPost && now <= quiz.endTime && submitted ==>
      SubmissionGate(isPost, now, quiz.(allowMultipleAttempts := true), submitted) == Some(AlreadySubmitted)
  {
  }

  /** The answer rows of a submission, numbered from `firstId`, pointing at
      `result`, with no points and no comment yet. */
  function Rows(drafts: seq<Draft>, result: int, firstId: int): (r: seq<StudentAnswerRow>)
    ensures |r| == |drafts|
    ensures forall k :: 0 <= k < |r| ==>
      r[k] == StudentAnswerRow(firstId + k, result, drafts[k].question, drafts[k].selected, drafts[k].customAnswer, None, "")
  {
    seq(|drafts|, k requires 0 <= k < |drafts| =>
      StudentAnswerRow(firstId + k, result, drafts[k].question, drafts[k].selected, drafts[k].customAnswer, None, ""))
  }

  /** The Result row a successful submission creates. */
  function NewResult(id: int, student: int, quiz: Quiz, t: Tally): ResultRow {
    ResultRow(id, student, quiz.id, GradedScore(t.correct, Scorable(quiz.questions)), false, 0.0, "")
  }

  /** `get_object_or_404(Result, id=...)`: the position of the row with the
      given id. */
  function FindResult(results: seq<ResultRow>, id: int): (r: Option<nat>)
    ensures r.Some? ==> r.value < |results| && results[r.value].id == id
    ensures r.None? ==> forall i :: 0 <= i < |results| ==> results[i].id != id
  {
    if results == [] then None
    else if results[0].id == id then Some(0)
    else match FindResult(results[1..], id)
      case None => None
      case Some(k) => Some(k + 1)
  }

  // ---------------------------------------------------------------------
  // Manual grading of short answers, as functions of the old rows
  // ---------------------------------------------------------------------

  /** The rows the grading loop visits: answers of this result to questions
      of type SHORT_ANSWER. */
  predicate Visited(row: StudentAnswerRow, resultId: int, qtypes: map<int, QuestionType>) {
    row.result == resultId && row.question in qtypes && qtypes[row.question] == ShortAnswer
  }

  /** A visited row whose `points_<id>` field is present and reads as a
      number. `points` maps an answer id to the outcome of `float(...)` on
      its field (`None` is the ValueError the view reports and skips). */
  predicate Accepted(row: StudentAnswerRow, resultId: int, qtypes: map<int, QuestionType>, points: map<int, Option<real>>) {
    Visited(row, resultId, qtypes) && row.id in points && points[row.id].Some?
  }

  /** One row after grading. */
  function GradeRow(row: StudentAnswerRow, resultId: int, qtypes: map<int, QuestionType>,
                    points: map<int, Option<real>>, comments: map<int, string>): StudentAnswerRow
  {
    if Accepted(row, resultId, qtypes, points) then
      row.(pointsEarned := points[row.id], teacherComment := if row.id in comments then comments[row.id] else "")
    else row
  }

  /** Every row after grading. Only accepted rows change, and only in their
      points and comment; the ids, links and answers stay. */
  function GradeRows(rows: seq<StudentAnswerRow>, resultId: int, qtypes: map<int, QuestionType>,
                     points: map<int, Option<real>>, comments: map<int, string>): (r: seq<StudentAnswerRow>)
    ensures |r| == |rows|
    ensures forall i :: 0 <= i < |rows| ==>
      && r[i].id == rows[i].id && r[i].result == rows[i].result && r[i].question == rows[i].question
      && r[i].selected == rows[i].selected && r[i].customAnswer == rows[i].customAnswer
    ensures forall i :: 0 <= i < |rows| && !Accepted(rows[i], resultId, qtypes, points) ==> r[i] == rows[i]
    ensures forall i :: 0 <= i < |rows| && Accepted(rows[i], resultId, qtypes, points) ==>
      r[i] == rows[i].(pointsEarned := points[rows[i].id],
                       teacherComment := if rows[i].id in comments then comments[rows[i].id] else "")
  {
    seq(|rows|, i requires 0 <= i < |rows| => GradeRow(rows[i], resultId, qtypes, points, comments))
  }

  /** `total_points`: the sum of the points that parsed. */
  function PointsSum(rows: seq<StudentAnswerRow>, resultId: int, qtypes: map<int, QuestionType>,
                     points: map<int, Option<real>>): real
  {
    if rows == [] then 0.0
    else
      var last := rows[|rows| - 1];
      PointsSum(rows[..|rows| - 1], resultId, qtypes, points)
        + (if Accepted(last, resultId, qtypes, points) then points[last.id].value else 0.0)
  }

  /** `short_answer_count`: how many rows were graded. */
  function PointsCount(rows: seq<StudentAnswerRow>, resultId: int, qtypes: map<int, QuestionType>,
                       points: map<int, Option<real>>): nat
  {
    if rows == [] then 0
    else
      PointsCount(rows[..|rows| - 1], resultId, qtypes, points)
        + (if Accepted(rows[|rows| - 1], resultId, qtypes, points) then 1 else 0)
  }

  lemma PointsStep(rows: seq<StudentAnswerRow>, i: nat, resultId: int, qtypes: map<int, QuestionType>,
                    points: map<int, Option<real>>)
    requires i < |rows|
    ensures PointsSum(rows[..i + 1], resultId, qtypes, points) == PointsSum(rows[..i], resultId, qtypes, points)
      + (if Accepted(rows[i], resultId, qtypes, points) then points[rows[i].id].value else 0.0)
    ensures PointsCount(rows[..i + 1], resultId, qtypes, points) == PointsCount(rows[..i], resultId, qtypes, points)
      + (if Accepted(rows[i], resultId, qtypes, points) then 1 else 0)
  {
    assert rows[..i + 1][..i] == rows[..i];
  }

  /** Grading is idempotent: grading again with the same form changes no
      row, and yields the same total and count. */
  lemma {:induction false} RegradeIdempotent(rows: seq<StudentAnswerRow>, resultId: int, qtypes: map<int, QuestionType>,
                                             points: map<int, Option<real>>, comments: map<int, string>)
    ensures var g := GradeRows(rows, resultId, qtypes, points, comments);
      && GradeRows(g, resultId, qtypes, points, comments) == g
      && PointsSum(g, resultId, qtypes, points) == PointsSum(rows, resultId, qtypes, points)
      && PointsCount(g, resultId, qtypes, points) == PointsCount(rows, resultId, qtypes, points)
  {
    var g := GradeRows(rows, resultId, qtypes, points, comments);
    assert forall i :: 0 <= i < |rows| ==>
      Accepted(g[i], resultId, qtypes, points) == Accepted(rows[i], resultId, qtypes, points);
    SumsFollowAcceptance(g, rows, resultId, qtypes, points);
  }

  /** Two row lists that agree, row by row, on which rows are accepted and
      on their ids give the same total and count. */
  lemma {:induction false} SumsFollowAcceptance(xs: seq<StudentAnswerRow>, ys: seq<StudentAnswerRow>, resultId: int,
                                                qtypes: map<int, QuestionType>, points: map<int, Option<real>>)
    requires |xs| == |ys|
    requires forall i :: 0 <= i < |xs| ==>
      xs[i].id == ys[i].id && Accepted(xs[i], resultId, qtypes, points) == Accepted(ys[i], resultId, qtypes, points)
    ensures PointsSum(xs, resultId, qtypes, points) == PointsSum(ys, resultId, qtypes, points)
    ensures PointsCount(xs, resultId, qtypes, points) == PointsCount(ys, resultId, qtypes, points)
  {
    if xs != [] {
      SumsFollowAcceptance(xs[..|xs| - 1], ys[..|ys| - 1], resultId, qtypes, points);
    }
  }

  /** Rows of other results, and rows whose field is missing or unreadable,
      add nothing: only accepted rows count, each once. */
  lemma {:induction false} CountAtMostVisited(rows: seq<StudentAnswerRow>, resultId: int, qtypes: map<int, QuestionType>,
                                              points: map<int, Option<real>>)
    ensures PointsCount(rows, resultId, qtypes, points) <= |rows|
    ensures (forall i :: 0 <= i < |rows| ==> !Accepted(rows[i], resultId, qtypes, points)) ==>
      PointsSum(rows, resultId, qtypes, points) == 0.0 && PointsCount(rows, resultId, qtypes, points) == 0
  {
    if rows != [] {
      CountAtMostVisited(rows[..|rows| - 1], resultId, qtypes, points);
    }
  }

  /** When every submitted mark is non-negative, so is the total. */
  lemma {:induction false} PointsSumNonNegative(rows: seq<StudentAnswerRow>, resultId: int, qtypes: map<int, QuestionType>,
                                                points: map<int, Option<real>>)
    requires forall id :: id in points && points[id].Some? ==> points[id].value >= 0.0
    ensures PointsSum(rows, resultId, qtypes, points) >= 0.0
  {
    if rows != [] {
      PointsSumNonNegative(rows[..|rows| - 1], resultId, qtypes, points);
    }
  }

  /** The total over joined rows is the sum of the two totals. */
  lemma {:induction false} PointsSumAppend(a: seq<StudentAnswerRow>, b: seq<StudentAnswerRow>, resultId: int,
                                          qtypes: map<int, QuestionType>, points: map<int, Option<real>>)
    ensures PointsSum(a + b, resultId, qtypes, points)
         == PointsSum(a, resultId, qtypes, points) + PointsSum(b, resultId, qtypes, points)
  {
    if b == [] {
      assert a + b == a;
    } else {
      var b0 := b[..|b| - 1];
      PointsSumAppend(a, b0, resultId, qtypes, points);
      assert (a + b)[..|a + b| - 1] == a + b0;
    }
  }

  /** A re-grade whose points field for a visited row is missing, or does
      not read as a number, keeps that row as it was, earlier points
      included, but leaves those points out of `short_answer_score`: the
      total is the total of the other rows. */
  lemma KeptPointsLeftOutOfScore(rows: seq<StudentAnswerRow>, i: int, resultId: int, qtypes: map<int, QuestionType>,
                                 points: map<int, Option<real>>, comments: map<int, string>)
    requires 0 <= i < |rows|
    requires Visited(rows[i], resultId, qtypes)
    requires rows[i].id !in points || points[rows[i].id].None?
    ensures GradeRows(rows, resultId, qtypes, points, comments)[i] == rows[i]
    ensures PointsSum(rows, resultId, qtypes, points)
         == PointsSum(rows[..i] + rows[i + 1..], resultId, qtypes, points)
  {
    assert rows == (rows[..i] + [rows[i]]) + rows[i + 1..];
    PointsSumAppend(rows[..i] + [rows[i]], rows[i + 1..], resultId, qtypes, points);
    PointsSumAppend(rows[..i], [rows[i]], resultId, qtypes, points);
    PointsSumAppend(rows[..i], rows[i + 1..], resultId, qtypes, points);
    assert [rows[i]][..0] == [];
  }

  // ---------------------------------------------------------------------
  // The tables
  // ---------------------------------------------------------------------

  /** The primary keys of the Result table. */
  function ResultIds(results: seq<ResultRow>): set<int> {
    set r | r in results :: r.id
  }

  ghost predicate TablesValid(results: seq<ResultRow>, answers: seq<StudentAnswerRow>, nextResultId: int, nextAnswerId: int) {
    && (forall i :: 0 <= i < |results| ==> results[i].id < nextResultId)
    && (forall i, j :: 0 <= i < j < |results| ==> results[i].id < results[j].id)
    && (forall i :: 0 <= i < |answers| ==> answers[i].id < nextAnswerId)
    && (forall i, j :: 0 <= i < j < |answers| ==> answers[i].id < answers[j].id)
    && (forall i :: 0 <= i < |answers| ==> answers[i].result in ResultIds(results))
  }

  /** Appending a new Result and its rows keeps the tables valid. */
  lemma AppendSubmissionValid(results: seq<ResultRow>, answers: seq<StudentAnswerRow>, nr: int, na: int,
                              created: ResultRow, drafts: seq<Draft>)
    requires TablesValid(results, answers, nr, na)
    requires created.id == nr
    ensures TablesValid(results + [created], answers + Rows(drafts, nr, na), nr + 1, na + |drafts|)
  {
    var rs := results + [created];
    assert ResultIds(rs) == ResultIds(results) + {nr} by {
      assert forall r :: r in rs <==> r in results || r == created;
    }
  }

  /** Grading in place keeps the tables valid: one Result row changes but
      keeps its key, and answer rows keep their keys and links. */
  lemma RegradeValid(results: seq<ResultRow>, answers: seq<StudentAnswerRow>, nr: int, na: int,
                     k: nat, updated: ResultRow, answers': seq<StudentAnswerRow>)
    requires TablesValid(results, answers, nr, na)
    requires k < |results| && updated.id == results[k].id
    requires |answers'| == |answers|
    requires forall i :: 0 <= i < |answers| ==> answers'[i].id == answers[i].id && answers'[i].result == answers[i].result
    ensures TablesValid(results[k := updated], answers', nr, na)
  {
    var rs := results[k := updated];
    assert ResultIds(rs) == ResultIds(results) by {
      forall x | x in ResultIds(results) ensures x in ResultIds(rs) {
        var r :| r in results && r.id == x;
        var i :| 0 <= i < |results| && results[i] == r;
        assert rs[i].id == x;
      }
      forall x | x in ResultIds(rs) ensures x in ResultIds(results) {
        var r :| r in rs && r.id == x;
        var i :| 0 <= i < |rs| && rs[i] == r;
        assert results[i].id == x;
      }
    }
  }

  /** The loop of `submit_quiz` over the quiz's questions: the points so far
      and the rows so far, stopping at the first question that raises. */
  method MarkAll(qs: seq<Question>, table: AnswerTable, post: Post) returns (r: Result<Tally, Abort>)
    ensures r == GradeAll(qs, table, post)
  {
    var t := Tally(0, []);
    var i := 0;
    while i < |qs|
      invariant 0 <= i <= |qs|
      invariant GradeAll(qs[..i], table, post) == Ok(t)
    {
      var m := MarkQuestion(qs[i], table, post);
      if m.Err? {
        GradeAllStops(qs, i, table, post);
        return Err(m.error);
      }
      GradeAllStep(qs, i, table, post, t, m.value);
      t := Tally(t.correct + (if m.value.credit then 1 else 0), t.drafts + m.value.drafts);
      i := i + 1;
    }
    assert qs[..|qs|] == qs;
    r := Ok(t);
  }

  class Gradebook {
    var results: seq<ResultRow>
    var answers: seq<StudentAnswerRow>
    var nextResultId: int
    var nextAnswerId: int

    /** Primary keys increase in creation order and stay below the next
        key to hand out; every answer row points at an existing Result. */
    ghost predicate Valid()
      reads this
    {
      TablesValid(results, answers, nextResultId, nextAnswerId)
    }

    constructor ()
      ensures Valid()
      ensures results == [] && answers == []
      ensures nextResultId == 1 && nextAnswerId == 1
    {
      results := [];
      answers := [];
      nextResultId := 1;
      nextAnswerId := 1;
    }

    /** `submit_quiz`: the gates, then one pass over the quiz's questions
        that counts points and collects rows, then the Result with its
        rounded score. Everything is written at the end, so an exception in
        the loop leaves both tables as they were (the view's atomic block). */
    method SubmitQuiz(student: int, quiz: Quiz, table: AnswerTable, post: Post, isPost: bool, now: int)
      returns (out: SubmitOutcome)
      requires Valid()
      modifies this
      ensures Valid()
      ensures var gate := SubmissionGate(isPost, now, quiz, HasResult(old(results), student, quiz.id));
        gate.Some? ==> out == gate.value && unchanged(this)
      ensures var gate := SubmissionGate(isPost, now, quiz, HasResult(old(results), student, quiz.id));
        gate.None? && GradeAll(quiz.questions, table, post).Err? ==>
          out == Aborted(GradeAll(quiz.questions, table, post).error) && unchanged(this)
      ensures var gate := SubmissionGate(isPost, now, quiz, HasResult(old(results), student, quiz.id));
        gate.None? && GradeAll(quiz.questions, table, post).Ok? ==>
          var t := GradeAll(quiz.questions, table, post).value;
          && out == Submitted(old(nextResultId))
          && results == old(results) + [NewResult(old(nextResultId), student, quiz, t)]
          && answers == old(answers) + Rows(t.drafts, old(nextResultId), old(nextAnswerId))
          && nextResultId == old(nextResultId) + 1
          && nextAnswerId == old(nextAnswerId) + |t.drafts|
      ensures out.Submitted? ==> HasResult(results, student, quiz.id)
    {
      var gate := SubmissionGate(isPost, now, quiz, HasResult(results, student, quiz.id));
      if gate.Some? {
        return gate.value;
      }
      var graded := MarkAll(quiz.questions, table, post);
      if graded.Err? {
        return Aborted(graded.error);
      }
      var drafts := graded.value.drafts;
      var rid := nextResultId;
      var created := NewResult(rid, student, quiz, graded.value);
      var rows := Rows(drafts, rid, nextAnswerId);
      AppendSubmissionValid(results, answers, rid, nextAnswerId, created, drafts);
      results := results + [created];
      answers := answers + rows;
      nextResultId := rid + 1;
      nextAnswerId := nextAnswerId + |drafts|;
      assert results[|results| - 1].id == rid;
      out := Submitted(rid);
    }

    /** The loop of `grade_short_answer`: store the points and comment of
        every accepted row in place, adding up the points. */
    method StoreGrades(resultId: int, qtypes: map<int, QuestionType>,
                       points: map<int, Option<real>>, comments: map<int, string>)
      returns (count: nat, total: real)
      modifies this`answers
      ensures answers == GradeRows(old(answers), resultId, qtypes, points, comments)
      ensures total == PointsSum(old(answers), resultId, qtypes, points)
      ensures count == PointsCount(old(answers), resultId, qtypes, points)
    {
      ghost var before := answers;
      total := 0.0;
      count := 0;
      var i := 0;
      while i < |answers|
        invariant 0 <= i <= |answers| == |before|
        invariant forall j :: 0 <= j < i ==> answers[j] == GradeRow(before[j], resultId, qtypes, points, comments)
        invariant forall j :: i <= j < |answers| ==> answers[j] == before[j]
        invariant total == PointsSum(before[..i], resultId, qtypes, points)
        invariant count == PointsCount(before[..i], resultId, qtypes, points)
      {
        PointsStep(before, i, resultId, qtypes, points);
        var row := answers[i];
        if Visited(row, resultId, qtypes) && row.id in points && points[row.id].Some? {
          answers := answers[i := GradeRow(row, resultId, qtypes, points, comments)];
          total := total + points[row.id].value;
          count := count + 1;
        }
        i := i + 1;
      }
      assert before[..|before|] == before;
      assert answers == GradeRows(before, resultId, qtypes, points, comments);
    }

    /** `grade_short_answer`: for each short answer of the result, store the
        points and comment when its points field reads as a number; then
        mark the result graded with the accepted points as its short-answer
        score and the overall feedback. */
    method GradeShortAnswer(resultId: int, isPost: bool, qtypes: map<int, QuestionType>,
                            points: map<int, Option<real>>, comments: map<int, string>, feedback: Option<string>)
      returns (out: GradeOutcome)
      requires Valid()
      modifies this
      ensures Valid()
      ensures FindResult(old(results), resultId).None? ==> out == ResultNotFound && unchanged(this)
      ensures FindResult(old(results), resultId).Some? && !isPost ==> out == Form && unchanged(this)
      ensures FindResult(old(results), resultId).Some? && isPost ==>
        var k := FindResult(old(results), resultId).value;
        var total := PointsSum(old(answers), resultId, qtypes, points);
        && out == Graded(PointsCount(old(answers), resultId, qtypes, points), total)
        && answers == GradeRows(old(answers), resultId, qtypes, points, comments)
        && results == old(results)[k := old(results)[k].(
             isGraded := true,
             shortAnswerScore := total,
             teacherFeedback := match feedback case None => "" case Some(f) => f)]
        && nextResultId == old(nextResultId) && nextAnswerId == old(nextAnswerId)
    {
      var found := FindResult(results, resultId);
      if found.None? {
        return ResultNotFound;
      }
      if !isPost {
        return Form;
      }
      var k := found.value;
      var count, total := StoreGrades(resultId, qtypes, points, comments);
      var text := match feedback case None => "" case Some(f) => f;
      results := results[k := results[k].(isGraded := true, shortAnswerScore := total, teacherFeedback := text)];
      out := Graded(count, total);
      RegradeValid(old(results), old(answers), nextResultId, nextAnswerId, k, results[k], answers);
    }
  }
}
