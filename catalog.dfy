/** The records the quiz views read: questions with their answer options, the
    global answer table, quizzes, users, and the submitted form. The shape is
    the one quiz/views.py uses (question types, a time window, an allow-list,
    the multiple-attempts flag), not the narrower model classes. */
module Catalog {
  import opened Base

  datatype QuestionType = SingleChoice | MultipleChoice | TrueFalse | ShortAnswer

  datatype Difficulty = Easy | Medium | Hard

  datatype Role = Admin | Teacher | Student

  /** `request.user`: an anonymous visitor has `authenticated == false`, and
      then `role` is never consulted. */
  datatype User = User(id: int, authenticated: bool, role: Role)

  /** One answer option (an `Answer` row). */
  datatype Answer = Answer(id: int, question: int, text: string, isCorrect: bool)

  /** One question with `question.answers`, in the order the database gives. */
  datatype Question = Question(id: int, qtype: QuestionType, answers: seq<Answer>)

  /** `Answer.objects`: every answer of every question, by primary key. */
  type AnswerTable = map<int, Answer>

  /** A quiz as the student-facing views read it. Times are instants on one
      clock (the model's stand-in for aware datetimes). */
  datatype Quiz = Quiz(
    id: int,
    isPublic: bool,
    allowedStudents: set<int>,
    allowMultipleAttempts: bool,
    startTime: int,
    endTime: int,
    questions: seq<Question>)

  /** The POST keys the quiz form uses: `question_<id>` for choice questions
      and `short_answer_<id>` for free text. */
  datatype Field = QuestionField(question: int) | ShortAnswerField(question: int)

  /** `request.POST`: each key with the list of values submitted under it. */
  type Post = map<Field, seq<string>>

  /** `request.POST.get(key)`: the last value submitted under the key. */
  function Get(post: Post, f: Field): (r: Option<string>)
    ensures r.Some? <==> f in post && post[f] != []
    ensures r.Some? ==> r.value == post[f][|post[f]| - 1]
  {
    if f in post && post[f] != [] then Some(post[f][|post[f]| - 1]) else None
  }

  /** `request.POST.getlist(key)`: every value submitted under the key. */
  function GetList(post: Post, f: Field): (r: seq<string>)
    ensures f !in post ==> r == []
    ensures f in post ==> r == post[f]
  {
    if f in post then post[f] else []
  }

  /** The ids of a question's options flagged correct
      (`question.answers.filter(is_correct=True)`). */
  function CorrectIds(q: Question): (r: set<int>)
    ensures forall id :: id in r <==> exists a :: a in q.answers && a.isCorrect && a.id == id
  {
    set a | a in q.answers && a.isCorrect :: a.id
  }

  /** The ids of all of a question's options. */
  function AnswerIds(q: Question): (r: set<int>)
    ensures CorrectIds(q) <= r
    ensures forall id :: id in r <==> exists a :: a in q.answers && a.id == id
  {
    set a | a in q.answers :: a.id
  }

  /** The options of a question whose text is `t`
      (`question.answers.filter(text=t)`). */
  function AnswersWithText(answers: seq<Answer>, t: string): (r: seq<Answer>)
    ensures |r| <= |answers|
    ensures forall a :: a in r <==> a in answers && a.text == t
  {
    if answers == [] then []
    else
      var rest := AnswersWithText(answers[1..], t);
      assert forall a :: a in answers <==> a == answers[0] || a in answers[1..];
      if answers[0].text == t then [answers[0]] + rest else rest
  }

  predicate IsChoice(t: QuestionType) {
    t == SingleChoice || t == MultipleChoice || t == TrueFalse
  }

  /** What the database guarantees about one question: option ids are
      distinct primary keys and each option belongs to the question. */
  ghost predicate WellFormed(q: Question) {
    && (forall i, j :: 0 <= i < j < |q.answers| ==> q.answers[i].id != q.answers[j].id)
    && (forall a :: a in q.answers ==> a.question == q.id)
  }

  /** The question's options are exactly the rows of the answer table that
      point at the question. */
  ghost predicate Consistent(q: Question, table: AnswerTable) {
    && (forall a :: a in q.answers ==> a.id in table && table[a.id] == a)
    && (forall id :: id in table && table[id].question == q.id ==> id in AnswerIds(q))
  }
}
