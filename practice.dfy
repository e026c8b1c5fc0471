/** Practice mode: `is_answer_correct` (quiz/views.py:1015-1043),
    `calculate_practice_score` (quiz/views.py:980-992), `calculate_improvement`
    (quiz/views.py:881-892) and the view that stores a practice attempt
    before computing its improvement (`submit_practice_quiz`,
    quiz/views.py:842-879). Its rules differ from the graded ones: short
    answers count as correct, every question is in the denominator, a
    true/false value is read as an answer id, and multiple choice compares
    counts. */
module Practice {
  import opened Base
  import opened Catalog
  import opened Grading

  /** `Answer.objects.get(id=v).is_correct` for a single submitted value, as
      single choice and true/false do it: no value or an unknown id is
      wrong, a value that is not an integer raises. */
  function LookupCorrect(v: Option<string>, table: AnswerTable): (r: Result<bool, Abort>)
    ensures r.Err? <==> v.Some? && v.value != "" && ParseInt(v.value).None?
    ensures r == Ok(true) <==>
      v.Some? && v.value != "" && ParseInt(v.value).Some? &&
      ParseInt(v.value).value in table && table[ParseInt(v.value).value].isCorrect
  {
    match v
    case None => Ok(false)
    case Some(s) =>
      if s == "" then Ok(false)
      else
        match ParseInt(s)
        case None => Err(InvalidId(s))
        case Some(n) => Ok(n in table && table[n].isCorrect)
  }

  /** The ids among the submitted ones that name a correct answer anywhere
      in the table (`Answer.objects.filter(id__in=..., is_correct=True)`). */
  function SelectedCorrect(ns: seq<int>, table: AnswerTable): set<int> {
    set id | id in ns && id in table && table[id].isCorrect
  }

  /** `is_answer_correct`. */
  function PracticeMark(q: Question, table: AnswerTable, post: Post): Result<bool, Abort> {
    match q.qtype
    case ShortAnswer => Ok(true)
    case SingleChoice => LookupCorrect(Get(post, QuestionField(q.id)), table)
    case TrueFalse => LookupCorrect(Get(post, QuestionField(q.id)), table)
    case MultipleChoice =>
      var values := GetList(post, QuestionField(q.id));
      match ParseAll(values)
      case Err(e) => Err(e)
      case Ok(ns) =>
        Ok(|SelectedCorrect(ns, table)| == |CorrectIds(q)| && |values| == |CorrectIds(q)|)
  }

  /** How many questions `is_answer_correct` accepts, the first error
      stopping the count. */
  function PracticeCorrect(qs: seq<Question>, table: AnswerTable, post: Post): (r: Result<nat, Abort>)
    ensures r.Ok? ==> r.value <= |qs|
  {
    if qs == [] then Ok(0)
    else
      match PracticeCorrect(qs[..|qs| - 1], table, post)
      case Err(e) => Err(e)
      case Ok(c) =>
        match PracticeMark(qs[|qs| - 1], table, post)
        case Err(e) => Err(e)
        case Ok(b) => Ok(c + (if b then 1 else 0))
  }

  /** The count succeeds exactly when every question is judged without an
      error. */
  lemma {:induction false} PracticeCorrectOk(qs: seq<Question>, table: AnswerTable, post: Post)
    ensures PracticeCorrect(qs, table, post).Ok? <==> forall i :: 0 <= i < |qs| ==> PracticeMark(qs[i], table, post).Ok?
  {
    if qs != [] {
      var init := qs[..|qs| - 1];
      PracticeCorrectOk(init, table, post);
      assert forall i :: 0 <= i < |init| ==> init[i] == qs[i];
    }
  }

  /** A successful count is the number of questions judged correct. */
  lemma {:induction false} PracticeCorrectCounts(qs: seq<Question>, table: AnswerTable, post: Post)
    requires PracticeCorrect(qs, table, post).Ok?
    ensures PracticeCorrect(qs, table, post).value == |set i | 0 <= i < |qs| && PracticeMark(qs[i], table, post) == Ok(true)|
  {
    if qs != [] {
      var init := qs[..|qs| - 1];
      var accepted := q => PracticeMark(q, table, post) == Ok(true);
      PracticeCorrectCounts(init, table, post);
      CountLast(qs, accepted);
      assert Positions(qs, accepted) == set i | 0 <= i < |qs| && PracticeMark(qs[i], table, post) == Ok(true);
      assert Positions(init, accepted) == set i | 0 <= i < |init| && PracticeMark(init[i], table, post) == Ok(true);
      var last := qs[|qs| - 1];
      assert PracticeCorrect(qs, table, post).value
          == PracticeCorrect(init, table, post).value + (if accepted(last) then 1 else 0);
    }
  }

  /** The practice score for `correct` of `total` questions. */
  function PracticeScore(correct: nat, total: nat): real {
    if total == 0 then 0.0 else Round2(correct as real / total as real * 100.0)
  }

  /** `calculate_practice_score`: an empty quiz scores 0 before any answer
      is read; otherwise one pass over the questions counts the accepted
      ones. */
  method CalculatePracticeScore(qs: seq<Question>, table: AnswerTable, post: Post) returns (r: Result<real, Abort>)
    ensures qs == [] ==> r == Ok(0.0)
    ensures qs != [] ==> r == match PracticeCorrect(qs, table, post)
      case Err(e) => Err(e)
      case Ok(c) => Ok(PracticeScore(c, |qs|))
  {
    if |qs| == 0 {
      return Ok(0.0);
    }
    var score := 0;
    var i := 0;
    while i < |qs|
      invariant 0 <= i <= |qs|
      invariant PracticeCorrect(qs[..i], table, post) == Ok(score)
    {
      var b := PracticeMark(qs[i], table, post);
      assert qs[..i + 1][..i] == qs[..i];
      if b.Err? {
        PracticeAbortPropagates(qs, i + 1, table, post);
        return Err(b.error);
      }
      if b.value {
        score := score + 1;
      }
      i := i + 1;
    }
    assert qs[..|qs|] == qs;
    r := Ok(PracticeScore(score, |qs|));
  }

  lemma {:induction false} PracticeAbortPropagates(qs: seq<Question>, k: nat, table: AnswerTable, post: Post)
    requires k <= |qs|
    requires PracticeCorrect(qs[..k], table, post).Err?
    ensures PracticeCorrect(qs, table, post) == PracticeCorrect(qs[..k], table, post)
    decreases |qs| - k
  {
    if k < |qs| {
      assert qs[..k + 1][..k] == qs[..k];
      PracticeAbortPropagates(qs, k + 1, table, post);
    } else {
      assert qs[..k] == qs;
    }
  }

  /** The practice score is a percentage of all questions; an empty quiz
      scores 0, and a quiz of short answers only scores 100. */
  lemma PracticeScoreRange(correct: nat, total: nat)
    requires correct <= total
    ensures 0.0 <= PracticeScore(correct, total) <= 100.0
    ensures total == 0 ==> PracticeScore(correct, total) == 0.0
    ensures 0 < total == correct ==> PracticeScore(correct, total) == 100.0
  {
    if total > 0 {
      RatioAtMostOne(correct, total);
      Round2Percentage(correct as real / total as real * 100.0);
      if correct == total {
        DivSelf(total as real);
        RoundHalfEvenOfInt(10000);
        assert 1.0 * 100.0 * 100.0 == 10000 as real;
      }
    }
  }

  /** Short answers always count as correct in practice. */
  lemma {:induction false} ShortAnswersCount(qs: seq<Question>, table: AnswerTable, post: Post)
    requires forall i :: 0 <= i < |qs| ==> qs[i].qtype == ShortAnswer
    ensures PracticeCorrect(qs, table, post) == Ok(|qs|)
  {
    if qs != [] {
      ShortAnswersCount(qs[..|qs| - 1], table, post);
    }
  }

  /** Single choice is judged the same way in practice and in a graded
      submission: same errors, same verdict. */
  lemma SingleChoiceAgrees(q: Question, table: AnswerTable, post: Post)
    requires q.qtype == SingleChoice
    ensures PracticeMark(q, table, post).Err? <==> MarkQuestion(q, table, post).Err?
    ensures PracticeMark(q, table, post).Ok? ==>
      PracticeMark(q, table, post).value == MarkQuestion(q, table, post).value.credit
  {
    SingleChoiceCredit(q, table, post);
  }

  /** Multiple choice agrees with the graded set comparison when no id is
      submitted twice and every submitted id is an option of the question. */
  lemma MultipleChoiceAgrees(q: Question, table: AnswerTable, post: Post)
    requires q.qtype == MultipleChoice
    requires WellFormed(q) && Consistent(q, table)
    requires var values := GetList(post, QuestionField(q.id));
      ParseAll(values).Ok? && NoDuplicates(ParseAll(values).value) &&
      (forall n :: n in ParseAll(values).value ==> n in AnswerIds(q))
    requires GetList(post, QuestionField(q.id)) != []
    ensures PracticeMark(q, table, post).Ok? && MarkQuestion(q, table, post).Ok?
    ensures PracticeMark(q, table, post).value == MarkQuestion(q, table, post).value.credit
  {
    var values := GetList(post, QuestionField(q.id));
    var ns := ParseAll(values).value;
    var picked := set n | n in ns;
    DistinctCount(ns);
    OwnOptionsSelected(q, table, ns);
    CountRule(picked, CorrectIds(q), |values|);
    MultipleChoiceCredit(q, table, post);
    ParsedIdsOfParseAll(values);
  }

  /** When every submitted id is an option of the question, the selected
      correct answers are the submitted ids that are correct options. */
  lemma OwnOptionsSelected(q: Question, table: AnswerTable, ns: seq<int>)
    requires Consistent(q, table)
    requires forall n :: n in ns ==> n in AnswerIds(q)
    ensures SelectedCorrect(ns, table) == (set n | n in ns) * CorrectIds(q)
  {
    var picked := set n | n in ns;
    forall id | id in picked ensures (id in table && table[id].isCorrect) <==> id in CorrectIds(q) {
      var a :| a in q.answers && a.id == id;
      assert table[id] == a;
    }
  }

  /** The count comparison is the set comparison when no id repeats. */
  lemma CountRule(picked: set<int>, c: set<int>, n: nat)
    requires |picked| == n
    ensures (|picked * c| == |c| && n == |c|) <==> picked == c
  {
    if |picked * c| == |c| && n == |c| {
      SubsetOfSameSize(picked * c, c);
      SubsetOfSameSize(c, picked);
    }
    if picked == c {
      assert picked * c == c;
    }
  }

  lemma DistinctCount(ns: seq<int>)
    requires NoDuplicates(ns)
    ensures |set n | n in ns| == |ns|
  {
    if ns != [] {
      var init := ns[..|ns| - 1];
      DistinctCount(init);
      assert (set n | n in ns) == (set n | n in init) + {ns[|ns| - 1]};
    }
  }

  lemma SubsetOfSameSize(a: set<int>, b: set<int>)
    requires a <= b && |a| == |b|
    ensures a == b
  {
    assert b == a + (b - a);
    assert |b| == |a| + |b - a|;
    assert b - a == {};
  }

  /** Submitting the one correct id twice fails in practice but succeeds
      in a graded submission, which collapses duplicates. */
  lemma DuplicateIdDisagrees(q: Question, table: AnswerTable, post: Post, s: string, n: int)
    requires q.qtype == MultipleChoice
    requires GetList(post, QuestionField(q.id)) == [s, s]
    requires ParseInt(s) == Some(n)
    requires CorrectIds(q) == {n}
    requires n in table && table[n].isCorrect
    ensures PracticeMark(q, table, post) == Ok(false)
    ensures MarkQuestion(q, table, post).Ok? && MarkQuestion(q, table, post).value.credit
  {
    var v := [s, s];
    assert v[1..] == [s] && [s][1..] == [];
    assert ParseAll([s]) == Ok([n] + []);
    assert [n] + [] == [n];
    assert ParseAll(v) == Ok([n] + [n]);
    assert SelectedCorrect([n, n], table) == {n};
    assert (set m | m in [n, n]) == {n};
  }

  /** A correct answer of another question counts in practice: the count of
      selected correct answers is taken over the whole answer table, so a
      question with one correct option is answered correctly by the id of
      any correct answer. A graded submission gives no point. */
  lemma ForeignCorrectIdCounts(q: Question, table: AnswerTable, post: Post, s: string, n: int)
    requires q.qtype == MultipleChoice
    requires GetList(post, QuestionField(q.id)) == [s]
    requires ParseInt(s) == Some(n)
    requires |CorrectIds(q)| == 1 && n !in CorrectIds(q)
    requires n in table && table[n].isCorrect
    ensures PracticeMark(q, table, post) == Ok(true)
    ensures MarkQuestion(q, table, post).Ok? && !MarkQuestion(q, table, post).value.credit
  {
    var v := [s];
    assert v[1..] == [];
    assert ParseAll(v) == Ok([n] + []);
    assert [n] + [] == [n];
    assert SelectedCorrect([n], table) == {n};
    assert (set m | m in [n]) == {n};
  }

  /** A multiple-choice question with no correct option is answered
      correctly, in practice, by submitting nothing; a graded submission
      gives it no point. */
  lemma NoCorrectOptionDisagrees(q: Question, table: AnswerTable, post: Post)
    requires q.qtype == MultipleChoice
    requires CorrectIds(q) == {}
    requires GetList(post, QuestionField(q.id)) == []
    ensures PracticeMark(q, table, post) == Ok(true)
    ensures MarkQuestion(q, table, post) == Ok(NoMark)
  {
    assert ParseAll([]) == Ok([]);
  }

  // ---------------------------------------------------------------------
  // Improvement
  // ---------------------------------------------------------------------

  /** `calculate_improvement` over the student's scores on the quiz, newest
      first, the current attempt already included. */
  function Improvement(newestFirst: seq<real>, current: real): real {
    if |newestFirst| >= 2 && newestFirst[1] > 0.0 then
      Round1((current - newestFirst[1]) / newestFirst[1] * 100.0)
    else 0.0
  }

  /** Improvement is 0 without an earlier attempt or when the earlier score
      is 0; otherwise its sign is the sign of the change. */
  lemma ImprovementSign(newestFirst: seq<real>, current: real)
    ensures |newestFirst| < 2 || newestFirst[1] <= 0.0 ==> Improvement(newestFirst, current) == 0.0
    ensures |newestFirst| >= 2 && newestFirst[1] > 0.0 && current >= newestFirst[1] ==>
      Improvement(newestFirst, current) >= 0.0
    ensures |newestFirst| >= 2 && newestFirst[1] > 0.0 && current <= newestFirst[1] ==>
      Improvement(newestFirst, current) <= 0.0
  {
    Round1Zero();
    if |newestFirst| >= 2 && newestFirst[1] > 0.0 {
      var p := newestFirst[1];
      var x := (current - p) / p * 100.0;
      if current >= p {
        assert (current - p) / p >= 0.0;
        Round1Monotone(0.0, x);
      }
      if current <= p {
        assert (current - p) / p <= 0.0;
        Round1Monotone(x, 0.0);
      }
    }
  }

  /** A stored practice attempt. */
  datatype PracticeRow = PracticeRow(student: int, quiz: int, score: real, totalQuestions: nat, correctAnswers: nat)

  /** The row is an attempt by `student` at `quiz`. */
  predicate AttemptBy(row: PracticeRow, student: int, quiz: int) {
    row.student == student && row.quiz == quiz
  }

  /** The scores of a student's attempts at a quiz, newest first (rows are
      kept in creation order): one score per matching row, each the score
      of a matching row. */
  function ScoresNewestFirst(rows: seq<PracticeRow>, student: int, quiz: int): (r: seq<real>)
    ensures |r| == |set i | 0 <= i < |rows| && AttemptBy(rows[i], student, quiz)|
    ensures forall k :: 0 <= k < |r| ==> exists i :: 0 <= i < |rows| && AttemptBy(rows[i], student, quiz) && rows[i].score == r[k]
  {
    if rows == [] then []
    else
      var init := rows[..|rows| - 1];
      var last := |rows| - 1;
      assert forall i :: 0 <= i < |init| ==> init[i] == rows[i];
      assert (set i | 0 <= i < |rows| && AttemptBy(rows[i], student, quiz))
          == (set i | 0 <= i < |init| && AttemptBy(init[i], student, quiz))
             + (if AttemptBy(rows[last], student, quiz) then {last} else {});
      (if AttemptBy(rows[last], student, quiz) then [rows[last].score] else [])
        + ScoresNewestFirst(init, student, quiz)
  }

  /** Storing one more row puts its score, if it is an attempt by the
      student at the quiz, in front of the earlier ones: the newest comes
      first. */
  lemma ScoresAppend(rows: seq<PracticeRow>, row: PracticeRow, student: int, quiz: int)
    ensures ScoresNewestFirst(rows + [row], student, quiz)
      == (if AttemptBy(row, student, quiz) then [row.score] else []) + ScoresNewestFirst(rows, student, quiz)
  {
    assert (rows + [row])[..|rows|] == rows;
  }

  /** How `submit_practice_quiz` ends. */
  datatype PracticeOutcome =
    | PracticeNotPost
    | PracticeRefused                // the quiz does not allow practice
    | PracticeAborted(reason: Abort)
    | Practiced(score: real, correct: nat, total: nat, improvement: real)

  /** Because the new attempt is stored before its improvement is computed,
      the comparison is with the attempt just before it: one earlier
      attempt is enough. */
  lemma ImprovementAgainstPreviousAttempt(rows: seq<PracticeRow>, row: PracticeRow)
    requires ScoresNewestFirst(rows, row.student, row.quiz) != []
    ensures var prev := ScoresNewestFirst(rows, row.student, row.quiz)[0];
      Improvement(ScoresNewestFirst(rows + [row], row.student, row.quiz), row.score)
        == if prev > 0.0 then Round1((row.score - prev) / prev * 100.0) else 0.0
  {
    ScoresAppend(rows, row, row.student, row.quiz);
  }

  class PracticeLog {
    var rows: seq<PracticeRow>

    constructor ()
      ensures rows == []
    {
      rows := [];
    }

    /** `submit_practice_quiz`: refuse quizzes that do not allow several
        attempts, score the answers, store the attempt, then compare it with
        the one before. */
    method SubmitPractice(student: int, quiz: Quiz, table: AnswerTable, post: Post, isPost: bool)
      returns (out: PracticeOutcome)
      modifies this
      ensures !isPost ==> out == PracticeNotPost && rows == old(rows)
      ensures isPost && !quiz.allowMultipleAttempts ==> out == PracticeRefused && rows == old(rows)
      ensures isPost && quiz.allowMultipleAttempts && PracticeCorrect(quiz.questions, table, post).Err? ==>
        out == PracticeAborted(PracticeCorrect(quiz.questions, table, post).error) && rows == old(rows)
      ensures isPost && quiz.allowMultipleAttempts && PracticeCorrect(quiz.questions, table, post).Ok? ==>
        var c := PracticeCorrect(quiz.questions, table, post).value;
        var n := |quiz.questions|;
        var score := PracticeScore(c, n);
        && rows == old(rows) + [PracticeRow(student, quiz.id, score, n, c)]
        && out == Practiced(score, c, n, Improvement(ScoresNewestFirst(rows, student, quiz.id), score))
    {
      if !isPost {
        return PracticeNotPost;
      }
      if !quiz.allowMultipleAttempts {
        return PracticeRefused;
      }
      var qs := quiz.questions;
      var score := CalculatePracticeScore(qs, table, post);
      if score.Err? {
        return PracticeAborted(score.error);
      }
      var counted := PracticeCorrect(qs, table, post);
      if qs == [] {
        assert counted == Ok(0);
      }
      var correct := counted.value;
      rows := rows + [PracticeRow(student, quiz.id, score.value, |qs|, correct)];
      out := Practiced(score.value, correct, |qs|, Improvement(ScoresNewestFirst(rows, student, quiz.id), score.value));
    }
  }
}
