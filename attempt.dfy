/** Starting an attempt (`take_quiz`, quiz/views.py:532-590): the access
    checks in the view's order, then the questions in a random order, each
    choice question with its options in a random order. `random.shuffle` is
    modelled by `Shuffle`, driven by a sequence of draws that stands for the
    random source; every order is reachable by some draws. */
module Attempt {
  import opened Base
  import opened Catalog
  import opened Grading
  import opened Gradebook

  /** Why `take_quiz` turns a student away. */
  datatype Refusal =
    | NotAllowed                 // a private quiz and the student is not on its list
    | AlreadyTaken(result: int)  // single attempt only: redirect to the earlier result
    | Ended
    | NotStarted

  predicate IsAttempt(row: ResultRow, student: int, quiz: int) {
    row.student == student && row.quiz == quiz
  }

  /** `Result.objects.filter(quiz=..., student=...).first()`: the row with
      the lowest key, which in a valid table is the earliest one. */
  function FirstResult(results: seq<ResultRow>, student: int, quiz: int): (r: Option<int>)
    ensures r.Some? <==> HasResult(results, student, quiz)
    ensures r.Some? ==> exists i :: FirstAttemptAt(results, student, quiz, i) && results[i].id == r.value
  {
    if results == [] then None
    else if IsAttempt(results[0], student, quiz) then
      assert FirstAttemptAt(results, student, quiz, 0);
      Some(results[0].id)
    else
      var r := FirstResult(results[1..], student, quiz);
      assert HasResult(results, student, quiz) ==> HasResult(results[1..], student, quiz) by {
        if HasResult(results, student, quiz) {
          var i :| 0 <= i < |results| && results[i].student == student && results[i].quiz == quiz;
          assert results[1..][i - 1] == results[i];
        }
      }
      if r.Some? then
        var i :| FirstAttemptAt(results[1..], student, quiz, i) && results[1..][i].id == r.value;
        assert results[i + 1] == results[1..][i];
        assert FirstAttemptAt(results, student, quiz, i + 1) by {
          forall j | 0 <= j < i + 1 ensures !IsAttempt(results[j], student, quiz) {
            if j > 0 {
              assert results[j] == results[1..][j - 1];
            }
          }
        }
        r
      else r
  }

  /** Row `i` is the student's first result for the quiz. */
  predicate FirstAttemptAt(results: seq<ResultRow>, student: int, quiz: int, i: int) {
    && 0 <= i < |results|
    && IsAttempt(results[i], student, quiz)
    && forall j :: 0 <= j < i ==> !IsAttempt(results[j], student, quiz)
  }

  /** The checks of `take_quiz`, in order; `None` lets the student in. */
  function AttemptGate(quiz: Quiz, student: int, firstResult: Option<int>, now: int): (r: Option<Refusal>)
    ensures !quiz.isPublic && student !in quiz.allowedStudents ==> r == Some(NotAllowed)
    ensures r.Some? && r.value.AlreadyTaken? ==> firstResult == Some(r.value.result)
    ensures r.Some? && r.value.AlreadyTaken? <==>
      (quiz.isPublic || student in quiz.allowedStudents) && !quiz.allowMultipleAttempts && firstResult.Some?
    ensures r == Some(Ended) <==>
      && (quiz.isPublic || student in quiz.allowedStudents)
      && (quiz.allowMultipleAttempts || firstResult.None?)
      && now > quiz.endTime
    ensures r == Some(NotStarted) <==>
      && (quiz.isPublic || student in quiz.allowedStudents)
      && (quiz.allowMultipleAttempts || firstResult.None?)
      && now <= quiz.endTime && now < quiz.startTime
    ensures r == None <==>
      && (quiz.isPublic || student in quiz.allowedStudents)
      && (quiz.allowMultipleAttempts || firstResult.None?)
      && quiz.startTime <= now <= quiz.endTime
  {
    if !quiz.isPublic && student !in quiz.allowedStudents then Some(NotAllowed)
    else if !quiz.allowMultipleAttempts && firstResult.Some? then Some(AlreadyTaken(firstResult.value))
    else if now > quiz.endTime then Some(Ended)
    else if now < quiz.startTime then Some(NotStarted)
    else None
  }

  /** The order matters: a student who already took a single-attempt quiz
      is sent to that result even after the quiz has closed, and a student
      not on a private quiz's list is refused before anything else. */
  lemma AttemptGateOrder(quiz: Quiz, student: int, firstResult: Option<int>, now: int)
    requires quiz.isPublic || student in quiz.allowedStudents
    requires !quiz.allowMultipleAttempts && firstResult.Some?
    ensures AttemptGate(quiz, student, firstResult, now) == Some(AlreadyTaken(firstResult.value))
  {
  }

  /** The two views disagree on quizzes that allow several attempts: once a
      result exists, `take_quiz` still opens such a quiz inside its window,
      while `submit_quiz` refuses the submission. */
  lemma RetakeOpensButCannotSubmit(quiz: Quiz, student: int, results: seq<ResultRow>, now: int)
    requires quiz.isPublic || student in quiz.allowedStudents
    requires quiz.allowMultipleAttempts
    requires quiz.startTime <= now <= quiz.endTime
    requires HasResult(results, student, quiz.id)
    ensures AttemptGate(quiz, student, FirstResult(results, student, quiz.id), now) == None
    ensures SubmissionGate(true, now, quiz, HasResult(results, student, quiz.id)) == Some(AlreadySubmitted)
  {
  }

  // ---------------------------------------------------------------------
  // Shuffling
  // ---------------------------------------------------------------------

  /** `random.shuffle`: each draw picks, among the elements still left, the
      one to put next. Missing draws pick the first element left. */
  function Shuffle<T>(s: seq<T>, draws: seq<nat>): (r: seq<T>)
    ensures |r| == |s|
    decreases |s|
  {
    if s == [] then []
    else
      var k := if draws == [] then 0 else draws[0] % |s|;
      [s[k]] + Shuffle(s[..k] + s[k + 1..], if draws == [] then [] else draws[1..])
  }

  /** Taking out the element at `k` takes it out of the multiset. */
  lemma RemoveAt<T>(s: seq<T>, k: nat)
    requires k < |s|
    ensures multiset(s) == multiset(s[..k] + s[k + 1..]) + multiset{s[k]}
  {
    assert s == s[..k] + [s[k]] + s[k + 1..];
  }

  /** A shuffle is a permutation. */
  lemma {:induction false} ShufflePermutes<T>(s: seq<T>, draws: seq<nat>)
    ensures multiset(Shuffle(s, draws)) == multiset(s)
    decreases |s|
  {
    if s != [] {
      var k := if draws == [] then 0 else draws[0] % |s|;
      var rest := s[..k] + s[k + 1..];
      var later := if draws == [] then [] else draws[1..];
      ShufflePermutes(rest, later);
      RemoveAt(s, k);
      assert Shuffle(s, draws) == [s[k]] + Shuffle(rest, later);
    }
  }

  /** Every permutation is a possible shuffle: shuffling assumes nothing
      about the order the students see. */
  lemma {:induction false} ShuffleReachesEveryOrder<T>(s: seq<T>, t: seq<T>)
    requires multiset(t) == multiset(s)
    ensures exists draws :: Shuffle(s, draws) == t
    decreases |s|
  {
    assert |t| == |multiset(t)| == |multiset(s)| == |s|;
    if s == [] {
      assert Shuffle(s, []) == t;
    } else {
      assert t[0] in multiset(s);
      var k :| 0 <= k < |s| && s[k] == t[0];
      var rest := s[..k] + s[k + 1..];
      TailAfterRemoval(s, t, k);
      ShuffleReachesEveryOrder(rest, t[1..]);
      var d :| Shuffle(rest, d) == t[1..];
      ShuffleFirst(s, k, d);
      assert t == [t[0]] + t[1..];
      assert Shuffle(s, [k] + d) == t;
    }
  }

  lemma TailAfterRemoval<T>(s: seq<T>, t: seq<T>, k: nat)
    requires multiset(t) == multiset(s)
    requires k < |s| && t != [] && s[k] == t[0]
    ensures multiset(t[1..]) == multiset(s[..k] + s[k + 1..])
  {
    var rest := s[..k] + s[k + 1..];
    RemoveAt(s, k);
    RemoveAt(t, 0);
    assert t[..0] + t[1..] == t[1..];
    forall x ensures multiset(t[1..])[x] == multiset(rest)[x] {
      assert multiset(t)[x] == multiset(t[1..])[x] + multiset{t[0]}[x];
      assert multiset(s)[x] == multiset(rest)[x] + multiset{t[0]}[x];
    }
  }

  lemma ShuffleFirst<T>(s: seq<T>, k: nat, d: seq<nat>)
    requires k < |s|
    ensures Shuffle(s, [k] + d) == [s[k]] + Shuffle(s[..k] + s[k + 1..], d)
  {
    ModBelow(k, |s|);
    assert ([k] + d)[1..] == d;
  }

  lemma ModBelow(k: nat, n: nat)
    requires k < n
    ensures k % n == k
  {
  }

  // ---------------------------------------------------------------------
  // What the student sees
  // ---------------------------------------------------------------------

  /** One entry of `shuffled_questions`. */
  datatype Presented = Presented(question: Question, answers: seq<Answer>, qtype: QuestionType)

  /** How `take_quiz` ends: turned away, or shown the questions. */
  datatype TakeOutcome = Refused(reason: Refusal) | Shown(questions: seq<Presented>)

  function DrawsAt(perQuestion: seq<seq<nat>>, i: nat): seq<nat> {
    if i < |perQuestion| then perQuestion[i] else []
  }

  /** A choice question with its options shuffled; a short answer with no
      options. */
  function PresentOne(q: Question, draws: seq<nat>): Presented {
    if IsChoice(q.qtype) then Presented(q, Shuffle(q.answers, draws), q.qtype)
    else Presented(q, [], q.qtype)
  }

  function Presentation(qs: seq<Question>, perQuestion: seq<seq<nat>>): (r: seq<Presented>)
    ensures |r| == |qs|
    ensures forall i :: 0 <= i < |qs| ==> r[i] == PresentOne(qs[i], DrawsAt(perQuestion, i))
  {
    seq(|qs|, i requires 0 <= i < |qs| => PresentOne(qs[i], DrawsAt(perQuestion, i)))
  }

  /** `take_quiz`: the gate, then the shuffled questions built one entry at
      a time. `questionDraws` drives the question order and
      `answerDraws[i]` the option order of the i-th question shown. */
  method TakeQuiz(quiz: Quiz, student: int, firstResult: Option<int>, now: int,
                  questionDraws: seq<nat>, answerDraws: seq<seq<nat>>) returns (out: TakeOutcome)
    ensures AttemptGate(quiz, student, firstResult, now).Some? ==>
      out == Refused(AttemptGate(quiz, student, firstResult, now).value)
    ensures AttemptGate(quiz, student, firstResult, now).None? ==>
      out == Shown(Presentation(Shuffle(quiz.questions, questionDraws), answerDraws))
  {
    var gate := AttemptGate(quiz, student, firstResult, now);
    if gate.Some? {
      return Refused(gate.value);
    }
    var questions := Shuffle(quiz.questions, questionDraws);
    var shown: seq<Presented> := [];
    for i := 0 to |questions|
      invariant |shown| == i
      invariant forall j :: 0 <= j < i ==> shown[j] == PresentOne(questions[j], DrawsAt(answerDraws, j))
    {
      var q := questions[i];
      if IsChoice(q.qtype) {
        var answers := Shuffle(q.answers, DrawsAt(answerDraws, i));
        shown := shown + [Presented(q, answers, q.qtype)];
      } else {
        shown := shown + [Presented(q, [], q.qtype)];
      }
    }
    out := Shown(shown);
  }

  /** What a student is shown is the quiz itself, rearranged: the same
      questions, each choice question with the same options, each short
      answer with none; and any arrangement can occur. */
  lemma {:induction false} PresentationIsRearrangement(qs: seq<Question>, questionDraws: seq<nat>, answerDraws: seq<seq<nat>>)
    ensures var shown := Presentation(Shuffle(qs, questionDraws), answerDraws);
      && multiset(seq(|shown|, i requires 0 <= i < |shown| => shown[i].question)) == multiset(qs)
      && (forall i :: 0 <= i < |shown| ==> shown[i].qtype == shown[i].question.qtype)
      && (forall i :: 0 <= i < |shown| && IsChoice(shown[i].question.qtype) ==>
            multiset(shown[i].answers) == multiset(shown[i].question.answers))
      && (forall i :: 0 <= i < |shown| && !IsChoice(shown[i].question.qtype) ==> shown[i].answers == [])
  {
    var order := Shuffle(qs, questionDraws);
    var shown := Presentation(order, answerDraws);
    ShufflePermutes(qs, questionDraws);
    assert seq(|shown|, i requires 0 <= i < |shown| => shown[i].question) == order;
    forall i | 0 <= i < |shown| && IsChoice(shown[i].question.qtype)
      ensures multiset(shown[i].answers) == multiset(shown[i].question.answers)
    {
      ShufflePermutes(order[i].answers, DrawsAt(answerDraws, i));
    }
  }

  /** Because every option order can be shown, it matters that the graded
      verdict of a choice question does not depend on it. */
  lemma ShownOrderIsNotGraded(q: Question, draws: seq<nat>, table: AnswerTable, post: Post)
    ensures var q' := q.(answers := Shuffle(q.answers, draws));
      && (MarkQuestion(q', table, post).Err? <==> MarkQuestion(q, table, post).Err?)
      && (MarkQuestion(q', table, post).Ok? ==>
            MarkQuestion(q', table, post).value.credit == MarkQuestion(q, table, post).value.credit)
  {
    ShufflePermutes(q.answers, draws);
    ChoiceCreditIgnoresOptionOrder(q, Shuffle(q.answers, draws), table, post);
  }
}
