/** The per-question credit rules of the graded submission (`submit_quiz`,
    quiz/views.py:616-701) as functions of the question, the global answer
    table and the submitted form. The state change that uses them (creating
    the Result and StudentAnswer rows) is `Gradebook.Gradebook.SubmitQuiz`. */
module Grading {
  import opened Base
  import opened Catalog

  /** Why a submission aborts. Both are exceptions the view does not catch,
      so its atomic block rolls every row of the submission back. */
  datatype Abort =
    | InvalidId(text: string)               // `int(...)` or an integer-key lookup raised ValueError
    | AmbiguousTrueFalse(question: int)     // `answers.get(text=...)` raised MultipleObjectsReturned

  /** A StudentAnswer row before it is numbered: the question, the chosen
      option (for choice questions) and the free text (for short answers). */
  datatype Draft = Draft(question: int, selected: Option<int>, customAnswer: Option<string>)

  /** The verdict on one question: whether it earns a point, and the rows
      it creates. */
  datatype Mark = Mark(credit: bool, drafts: seq<Draft>)

  /** The running totals of the submission loop. */
  datatype Tally = Tally(correct: nat, drafts: seq<Draft>)

  const NoMark := Mark(false, [])

  /** The answer text `submit_quiz` looks for on a true/false question. */
  const TrueText: string := "\U{0110}\U{00FA}ng"   // "Đúng"
  const FalseText: string := "Sai"

  function TrueFalseText(value: string): string {
    if Lower(value) == "true" then TrueText else FalseText
  }

  /** `int(v)` for every submitted value, failing on the first that is not
      an integer. */
  function ParseAll(values: seq<string>): (r: Result<seq<int>, Abort>)
    ensures r.Ok? ==> |r.value| == |values|
    ensures r.Ok? ==> forall k :: 0 <= k < |values| ==> ParseInt(values[k]) == Some(r.value[k])
  {
    if values == [] then Ok([])
    else
      match ParseInt(values[0])
      case None => Err(InvalidId(values[0]))
      case Some(n) =>
        match ParseAll(values[1..])
        case Err(e) => Err(e)
        case Ok(ns) =>
          assert forall k :: 1 <= k < |values| ==> values[k] == values[1..][k - 1];
          Ok([n] + ns)
  }

  /** The conversion fails exactly when some value is not an integer. */
  lemma {:induction false} ParseAllFails(values: seq<string>)
    ensures ParseAll(values).Err? <==> exists k :: 0 <= k < |values| && ParseInt(values[k]).None?
  {
    if values != [] && ParseInt(values[0]).Some? {
      ParseAllFails(values[1..]);
      if ParseAll(values[1..]).Err? {
        var k :| 0 <= k < |values[1..]| && ParseInt(values[1..][k]).None?;
        assert ParseInt(values[k + 1]).None?;
      } else {
        forall k | 0 <= k < |values| ensures ParseInt(values[k]).Some? {
          if k > 0 {
            assert values[k] == values[1..][k - 1];
          }
        }
      }
    }
  }

  /** One row per selected id that names an existing answer. */
  function ExistingDrafts(qid: int, ids: seq<int>, table: AnswerTable): (r: seq<Draft>)
    ensures |r| <= |ids|
    ensures forall d :: d in r ==> d.question == qid && d.customAnswer == None && d.selected.Some?
    ensures forall id :: Some(id) in (set d | d in r :: d.selected) <==> id in ids && id in table
  {
    if ids == [] then []
    else
      var rest := ExistingDrafts(qid, ids[1..], table);
      assert forall id :: id in ids <==> id == ids[0] || id in ids[1..];
      if ids[0] in table then [Draft(qid, Some(ids[0]), None)] + rest else rest
  }

  lemma {:induction false} ExistingDraftsDistinct(qid: int, ids: seq<int>, table: AnswerTable)
    requires NoDuplicates(ids)
    ensures NoDuplicates(ExistingDrafts(qid, ids, table))
  {
    if ids != [] {
      var rest := ExistingDrafts(qid, ids[1..], table);
      ExistingDraftsDistinct(qid, ids[1..], table);
      if ids[0] in table {
        forall d | d in rest ensures d.selected != Some(ids[0]) {
          assert d.selected in (set d | d in rest :: d.selected);
        }
      }
    }
  }

  /** SINGLE_CHOICE (quiz/views.py:617-631): the last submitted value is
      looked up in the global answer table. */
  function MarkSingle(q: Question, table: AnswerTable, post: Post): Result<Mark, Abort>
  {
    match Get(post, QuestionField(q.id))
    case None => Ok(NoMark)
    case Some(v) =>
      if v == "" then Ok(NoMark)
      else
        match ParseInt(v)
        case None => Err(InvalidId(v))
        case Some(n) =>
          if n in table then Ok(Mark(table[n].isCorrect, [Draft(q.id, Some(n), None)]))
          else Ok(NoMark)
  }

  /** MULTIPLE_CHOICE (quiz/views.py:633-655): the set of submitted ids
      against the set of this question's correct ids. */
  function MarkMultiple(q: Question, table: AnswerTable, post: Post): Result<Mark, Abort>
  {
    var values := GetList(post, QuestionField(q.id));
    if values == [] then Ok(NoMark)
    else
      match ParseAll(values)
      case Err(e) => Err(e)
      case Ok(ns) =>
        var selected := set n | n in ns;
        Ok(Mark(selected == CorrectIds(q), ExistingDrafts(q.id, Dedup(ns), table)))
  }

  /** TRUE_FALSE (quiz/views.py:657-678): the value picks an option by its
      text, and only when the question has some correct option. */
  function MarkTrueFalse(q: Question, post: Post): Result<Mark, Abort>
  {
    match Get(post, QuestionField(q.id))
    case None => Ok(NoMark)
    case Some(v) =>
      if v == "" || CorrectIds(q) == {} then Ok(NoMark)
      else
        var matching := AnswersWithText(q.answers, TrueFalseText(v));
        if |matching| == 0 then Ok(NoMark)
        else if |matching| > 1 then Err(AmbiguousTrueFalse(q.id))
        else Ok(Mark(matching[0].isCorrect, [Draft(q.id, Some(matching[0].id), None)]))
  }

  /** SHORT_ANSWER (quiz/views.py:680-690): stored when its stripped text is
      not empty; never a point. */
  function MarkShort(q: Question, post: Post): Mark
  {
    var text := match Get(post, ShortAnswerField(q.id)) case None => "" case Some(v) => Strip(v);
    if text != "" then Mark(false, [Draft(q.id, None, Some(text))]) else NoMark
  }

  function MarkQuestion(q: Question, table: AnswerTable, post: Post): Result<Mark, Abort>
  {
    match q.qtype
    case SingleChoice => MarkSingle(q, table, post)
    case MultipleChoice => MarkMultiple(q, table, post)
    case TrueFalse => MarkTrueFalse(q, post)
    case ShortAnswer => Ok(MarkShort(q, post))
  }

  /** The submission loop over `quiz.questions.all()`: the first abort
      wins; otherwise the points add up and the rows are collected in
      question order. */
  function GradeAll(qs: seq<Question>, table: AnswerTable, post: Post): Result<Tally, Abort>
  {
    if qs == [] then Ok(Tally(0, []))
    else
      match GradeAll(qs[..|qs| - 1], table, post)
      case Err(e) => Err(e)
      case Ok(t) =>
        match MarkQuestion(qs[|qs| - 1], table, post)
        case Err(e) => Err(e)
        case Ok(m) => Ok(Tally(t.correct + (if m.credit then 1 else 0), t.drafts + m.drafts))
  }

  /** One more step of the submission loop. */
  lemma GradeAllStep(qs: seq<Question>, i: nat, table: AnswerTable, post: Post, t: Tally, m: Mark)
    requires i < |qs|
    requires GradeAll(qs[..i], table, post) == Ok(t)
    requires MarkQuestion(qs[i], table, post) == Ok(m)
    ensures GradeAll(qs[..i + 1], table, post) == Ok(Tally(t.correct + (if m.credit then 1 else 0), t.drafts + m.drafts))
  {
    assert qs[..i + 1][..i] == qs[..i];
  }

  /** The submission loop stops at the first question that raises. */
  lemma GradeAllStops(qs: seq<Question>, i: nat, table: AnswerTable, post: Post)
    requires i < |qs|
    requires GradeAll(qs[..i], table, post).Ok?
    requires MarkQuestion(qs[i], table, post).Err?
    ensures GradeAll(qs, table, post) == Err(MarkQuestion(qs[i], table, post).error)
  {
    assert qs[..i + 1][..i] == qs[..i];
    AbortPropagates(qs, i + 1, table, post);
  }

  /** `questions.exclude(question_type=SHORT_ANSWER).count()`: the number
      of positions holding a question that is not a short answer. */
  function Scorable(qs: seq<Question>): (r: nat)
    ensures r == |set i | 0 <= i < |qs| && qs[i].qtype != ShortAnswer|
    ensures r <= |qs|
  {
    if qs == [] then 0
    else
      var init := qs[..|qs| - 1];
      var last := |qs| - 1;
      assert (set i | 0 <= i < |qs| && qs[i].qtype != ShortAnswer)
          == (set i | 0 <= i < |init| && init[i].qtype != ShortAnswer)
             + (if qs[last].qtype != ShortAnswer then {last} else {});
      Scorable(init) + (if qs[last].qtype != ShortAnswer then 1 else 0)
  }

  /** The exact percentage before `round(score, 2)`. */
  function Percentage(correct: nat, scorable: nat): real {
    if scorable > 0 then correct as real / scorable as real * 100.0 else 0.0
  }

  /** The stored `result.score`. */
  function GradedScore(correct: nat, scorable: nat): real {
    Round2(Percentage(correct, scorable))
  }

  // ---------------------------------------------------------------------
  // The credit rules, stated per question type
  // ---------------------------------------------------------------------

  /** Single choice: a point exactly when the last submitted value is the id
      of an existing answer flagged correct, of whatever question. A missing
      value or an unknown integer id earns nothing and raises nothing; only
      a value that is not an integer aborts. */
  lemma SingleChoiceCredit(q: Question, table: AnswerTable, post: Post)
    requires q.qtype == SingleChoice
    ensures MarkQuestion(q, table, post).Err? <==>
      exists v :: Get(post, QuestionField(q.id)) == Some(v) && v != "" && ParseInt(v).None?
    ensures (MarkQuestion(q, table, post).Ok? && MarkQuestion(q, table, post).value.credit) <==>
      exists n :: SubmittedId(post, q.id) == Some(n) && n in table && table[n].isCorrect
    ensures MarkQuestion(q, table, post).Ok? ==>
      |MarkQuestion(q, table, post).value.drafts| <= 1
  {
    match Get(post, QuestionField(q.id))
    case None =>
    case Some(v) =>
      if v != "" {
        match ParseInt(v)
        case None =>
        case Some(n) => assert SubmittedId(post, q.id) == Some(n);
      }
  }

  /** The integer a single-value field names, if it names one. */
  function SubmittedId(post: Post, qid: int): Option<int> {
    match Get(post, QuestionField(qid))
    case None => None
    case Some(v) => ParseInt(v)
  }

  /** The integers among the submitted values. */
  function ParsedIds(values: seq<string>): set<int> {
    set k | 0 <= k < |values| && ParseInt(values[k]).Some? :: ParseInt(values[k]).value
  }

  lemma ParsedIdsOfParseAll(values: seq<string>)
    requires ParseAll(values).Ok?
    ensures (set n | n in ParseAll(values).value) == ParsedIds(values)
  {
    var ns := ParseAll(values).value;
    forall n | n in ns ensures n in ParsedIds(values) {
      var k :| 0 <= k < |ns| && ns[k] == n;
      assert ParseInt(values[k]) == Some(n);
    }
    forall n | n in ParsedIds(values) ensures n in ns {
      var k :| 0 <= k < |values| && ParseInt(values[k]).Some? && ParseInt(values[k]).value == n;
      assert ns[k] == n;
    }
  }

  /** Multiple choice: a point exactly when the submitted ids, duplicates
      collapsed, are the question's correct ids. Any value that is not an
      integer aborts the submission. */
  lemma MultipleChoiceCredit(q: Question, table: AnswerTable, post: Post)
    requires q.qtype == MultipleChoice
    ensures var values := GetList(post, QuestionField(q.id));
      && (MarkQuestion(q, table, post).Err? <==> exists k :: 0 <= k < |values| && ParseInt(values[k]).None?)
      && (MarkQuestion(q, table, post).Ok? ==>
            (MarkQuestion(q, table, post).value.credit <==> values != [] && ParsedIds(values) == CorrectIds(q)))
  {
    var values := GetList(post, QuestionField(q.id));
    ParseAllFails(values);
    if values != [] {
      if ParseAll(values).Ok? {
        ParsedIdsOfParseAll(values);
      }
    }
  }

  /** Multiple choice: an empty submission, a strict subset or a strict
      superset of the correct ids earns nothing. */
  lemma MultipleChoiceNoPartialCredit(q: Question, table: AnswerTable, post: Post)
    requires q.qtype == MultipleChoice
    requires MarkQuestion(q, table, post).Ok?
    requires var ids := ParsedIds(GetList(post, QuestionField(q.id)));
      GetList(post, QuestionField(q.id)) == [] || ids < CorrectIds(q) || CorrectIds(q) < ids
    ensures !MarkQuestion(q, table, post).value.credit
  {
    MultipleChoiceCredit(q, table, post);
  }

  /** The rows a multiple-choice answer creates: one per distinct submitted
      id that names an existing answer, and nothing else. */
  lemma MultipleChoiceRows(q: Question, table: AnswerTable, post: Post)
    requires q.qtype == MultipleChoice
    requires MarkQuestion(q, table, post).Ok?
    ensures var ds := MarkQuestion(q, table, post).value.drafts;
      && NoDuplicates(ds)
      && (forall d :: d in ds ==> d.question == q.id && d.customAnswer == None && d.selected.Some?)
      && (forall id :: Some(id) in (set d | d in ds :: d.selected) <==>
            id in table && id in ParsedIds(GetList(post, QuestionField(q.id))))
  {
    var values := GetList(post, QuestionField(q.id));
    if values != [] {
      MultipleChoiceCredit(q, table, post);
      var ns := ParseAll(values).value;
      ExistingDraftsDistinct(q.id, Dedup(ns), table);
      ParsedIdsOfParseAll(values);
      assert forall n :: n in ns <==> n in ParsedIds(values) by {
        forall n ensures n in ns <==> n in ParsedIds(values) {
          assert n in ns <==> n in (set n | n in ns);
        }
      }
    }
  }

  /** True/false: with a correct option present, a point exactly when the
      option whose text is `'Đúng'` (for a value that lowercases to
      `'true'`) or `'Sai'` (for any other value) is the single such option
      and is flagged correct. No value earns nothing. */
  lemma TrueFalseCredit(q: Question, table: AnswerTable, post: Post)
    requires q.qtype == TrueFalse
    ensures Get(post, QuestionField(q.id)).None? ==> MarkQuestion(q, table, post) == Ok(NoMark)
    ensures CorrectIds(q) == {} ==> MarkQuestion(q, table, post) == Ok(NoMark)
    ensures (MarkQuestion(q, table, post).Ok? && MarkQuestion(q, table, post).value.credit) <==>
      exists v :: Get(post, QuestionField(q.id)) == Some(v) && v != "" && CorrectIds(q) != {} &&
        exists a :: AnswersWithText(q.answers, TrueFalseText(v)) == [a] && a.isCorrect
  {
    match Get(post, QuestionField(q.id))
    case None =>
    case Some(v) =>
      if v != "" && CorrectIds(q) != {} {
        var matching := AnswersWithText(q.answers, TrueFalseText(v));
        if |matching| == 1 {
          assert matching == [matching[0]];
        }
      }
  }

  /** A true/false question created by `question_create` (options `'Đúng'`
      correct and `'Sai'` not, quiz/views.py:169-170) gives a point exactly
      to a value that lowercases to `'true'`, in either option order. */
  lemma CreatedTrueFalseCredit(q: Question, table: AnswerTable, post: Post, v: string)
    requires q.qtype == TrueFalse
    requires |q.answers| == 2
    requires multiset(q.answers) == multiset{
      Answer(q.answers[0].id, q.id, TrueText, true), Answer(q.answers[1].id, q.id, FalseText, false)}
      || multiset(q.answers) == multiset{
      Answer(q.answers[1].id, q.id, TrueText, true), Answer(q.answers[0].id, q.id, FalseText, false)}
    requires Get(post, QuestionField(q.id)) == Some(v) && v != ""
    ensures MarkQuestion(q, table, post).Ok?
    ensures MarkQuestion(q, table, post).value.credit <==> Lower(v) == "true"
  {
    var a0, a1 := q.answers[0], q.answers[1];
    assert q.answers == [a0, a1];
    assert a0 in multiset(q.answers) && a1 in multiset(q.answers);
    assert TrueText != FalseText by { assert TrueText[0] != FalseText[0]; }
    var correct :| correct in q.answers && correct.isCorrect;
    assert correct.id in CorrectIds(q);
    var t := TrueFalseText(v);
    assert AnswersWithText(q.answers, t) == AnswersWithText([a1], t) || a0.text == t;
    if a0.text == TrueText {
      assert a1.text == FalseText;
    } else {
      assert a0.text == FalseText && a1.text == TrueText;
    }
  }

  /** Short answers never earn a point, and are stored exactly when their
      stripped text is not empty. */
  lemma ShortAnswerNeverScores(q: Question, table: AnswerTable, post: Post)
    requires q.qtype == ShortAnswer
    ensures MarkQuestion(q, table, post).Ok?
    ensures !MarkQuestion(q, table, post).value.credit
    ensures var text := match Get(post, ShortAnswerField(q.id)) case None => "" case Some(v) => Strip(v);
      MarkQuestion(q, table, post).value.drafts == if text == "" then [] else [Draft(q.id, None, Some(text))]
  {
  }

  // ---------------------------------------------------------------------
  // The aggregate
  // ---------------------------------------------------------------------

  /** Each scorable question adds at most one point; short answers add none. */
  lemma {:induction false} CorrectAtMostScorable(qs: seq<Question>, table: AnswerTable, post: Post)
    requires GradeAll(qs, table, post).Ok?
    ensures GradeAll(qs, table, post).value.correct <= Scorable(qs)
  {
    if qs != [] {
      CorrectAtMostScorable(qs[..|qs| - 1], table, post);
      var q := qs[|qs| - 1];
      if q.qtype == ShortAnswer {
        ShortAnswerNeverScores(q, table, post);
      }
    }
  }

  /** The graded score is `correct / scorable * 100`, or 0 with no scorable
      question, and it lies in [0, 100] before and after rounding. */
  lemma GradedScoreRange(qs: seq<Question>, table: AnswerTable, post: Post)
    requires GradeAll(qs, table, post).Ok?
    ensures var c := GradeAll(qs, table, post).value.correct;
      && (Scorable(qs) == 0 ==> GradedScore(c, Scorable(qs)) == 0.0)
      && 0.0 <= Percentage(c, Scorable(qs)) <= 100.0
      && 0.0 <= GradedScore(c, Scorable(qs)) <= 100.0
  {
    var c := GradeAll(qs, table, post).value.correct;
    var s := Scorable(qs);
    CorrectAtMostScorable(qs, table, post);
    if s > 0 {
      RatioAtMostOne(c, s);
    } else {
      RoundHalfEvenOfInt(0);
      assert 0.0 * 100.0 == 0 as real;
    }
    Round2Percentage(Percentage(c, s));
  }

  lemma RatioAtMostOne(c: nat, s: nat)
    requires 0 < s && c <= s
    ensures 0.0 <= c as real / s as real <= 1.0
  {
    var q := c as real / s as real;
    assert q * s as real == c as real;
  }

  /** Two forms that agree on every choice field. */
  ghost predicate SameChoices(p1: Post, p2: Post) {
    forall qid :: GetList(p1, QuestionField(qid)) == GetList(p2, QuestionField(qid))
  }

  /** One question's verdict reads only its own choice field, and its
      free-text field only for rows, never for credit. */
  lemma MarkReadsChoiceField(q: Question, table: AnswerTable, p1: Post, p2: Post)
    requires GetList(p1, QuestionField(q.id)) == GetList(p2, QuestionField(q.id))
    ensures MarkQuestion(q, table, p1).Err? <==> MarkQuestion(q, table, p2).Err?
    ensures MarkQuestion(q, table, p1).Err? ==> MarkQuestion(q, table, p1) == MarkQuestion(q, table, p2)
    ensures MarkQuestion(q, table, p1).Ok? ==>
      MarkQuestion(q, table, p1).value.credit == MarkQuestion(q, table, p2).value.credit
  {
    assert Get(p1, QuestionField(q.id)) == Get(p2, QuestionField(q.id));
  }

  /** Short-answer text never changes the score, whether the submission goes
      through, or which error stops it. */
  lemma {:induction false} ShortAnswerTextIrrelevant(qs: seq<Question>, table: AnswerTable, p1: Post, p2: Post)
    requires SameChoices(p1, p2)
    ensures GradeAll(qs, table, p1).Err? <==> GradeAll(qs, table, p2).Err?
    ensures GradeAll(qs, table, p1).Err? ==> GradeAll(qs, table, p1) == GradeAll(qs, table, p2)
    ensures GradeAll(qs, table, p1).Ok? ==>
      GradeAll(qs, table, p1).value.correct == GradeAll(qs, table, p2).value.correct
  {
    if qs != [] {
      ShortAnswerTextIrrelevant(qs[..|qs| - 1], table, p1, p2);
      var q := qs[|qs| - 1];
      MarkReadsChoiceField(q, table, p1, p2);
    }
  }

  /** A rejection is the first one in question order: once a prefix of the
      quiz aborts, the whole submission aborts with the same error. */
  lemma {:induction false} AbortPropagates(qs: seq<Question>, k: nat, table: AnswerTable, post: Post)
    requires k <= |qs|
    requires GradeAll(qs[..k], table, post).Err?
    ensures GradeAll(qs, table, post) == GradeAll(qs[..k], table, post)
    decreases |qs| - k
  {
    if k < |qs| {
      assert qs[..k + 1][..k] == qs[..k];
      AbortPropagates(qs, k + 1, table, post);
    } else {
      assert qs[..k] == qs;
    }
  }

  /** Rows are created only for answered questions: every row belongs to a
      question of the quiz, and a question with nothing submitted under
      either of its keys contributes no row. */
  lemma {:induction false} RowsOnlyForAnswered(qs: seq<Question>, table: AnswerTable, post: Post)
    requires GradeAll(qs, table, post).Ok?
    ensures forall d :: d in GradeAll(qs, table, post).value.drafts ==>
      exists q :: q in qs && q.id == d.question &&
        (GetList(post, QuestionField(q.id)) != [] || GetList(post, ShortAnswerField(q.id)) != [])
  {
    if qs != [] {
      var init := qs[..|qs| - 1];
      var q := qs[|qs| - 1];
      RowsOnlyForAnswered(init, table, post);
      var t := GradeAll(init, table, post).value;
      var m := MarkQuestion(q, table, post).value;
      forall d | d in m.drafts
        ensures d.question == q.id &&
          (GetList(post, QuestionField(q.id)) != [] || GetList(post, ShortAnswerField(q.id)) != [])
      {
        if q.qtype == MultipleChoice {
          var values := GetList(post, QuestionField(q.id));
          if values != [] {
            assert d in ExistingDrafts(q.id, Dedup(ParseAll(values).value), table);
          }
        }
      }
      forall d | d in t.drafts + m.drafts
        ensures exists q' :: (q' in qs && q'.id == d.question &&
          (GetList(post, QuestionField(q'.id)) != [] || GetList(post, ShortAnswerField(q'.id)) != []))
      {
        if d in t.drafts {
          var q' :| q' in init && q'.id == d.question &&
            (GetList(post, QuestionField(q'.id)) != [] || GetList(post, ShortAnswerField(q'.id)) != []);
          assert q' in qs;
        } else {
          assert q in qs;
        }
      }
    }
  }

  /** The credit of a choice question depends on which options it has, not
      on the order they are listed in: shuffling the options changes no
      verdict. */
  lemma ChoiceCreditIgnoresOptionOrder(q: Question, answers: seq<Answer>, table: AnswerTable, post: Post)
    requires multiset(answers) == multiset(q.answers)
    ensures MarkQuestion(q.(answers := answers), table, post).Err? <==> MarkQuestion(q, table, post).Err?
    ensures MarkQuestion(q.(answers := answers), table, post).Ok? ==>
      MarkQuestion(q.(answers := answers), table, post).value.credit == MarkQuestion(q, table, post).value.credit
  {
    var q' := q.(answers := answers);
    assert forall a :: a in answers <==> a in q.answers by {
      forall a ensures a in answers <==> a in q.answers {
        assert a in answers <==> a in multiset(answers);
        assert a in q.answers <==> a in multiset(q.answers);
      }
    }
    assert CorrectIds(q') == CorrectIds(q);
    if q.qtype == TrueFalse {
      match Get(post, QuestionField(q.id))
      case None =>
      case Some(v) =>
        var t := TrueFalseText(v);
        MatchingPermuted(answers, q.answers, t);
    }
  }

  lemma {:induction false} MatchingPermuted(xs: seq<Answer>, ys: seq<Answer>, t: string)
    requires multiset(xs) == multiset(ys)
    ensures multiset(AnswersWithText(xs, t)) == multiset(AnswersWithText(ys, t))
    ensures |AnswersWithText(xs, t)| == |AnswersWithText(ys, t)|
    ensures |AnswersWithText(xs, t)| == 1 ==> AnswersWithText(xs, t) == AnswersWithText(ys, t)
    decreases |xs|
  {
    MatchingMultiset(xs, t);
    MatchingMultiset(ys, t);
    var mx, my := AnswersWithText(xs, t), AnswersWithText(ys, t);
    assert forall a :: multiset(mx)[a] == multiset(my)[a];
    assert multiset(mx) == multiset(my);
    assert |mx| == |multiset(mx)| == |multiset(my)| == |my|;
    if |mx| == 1 {
      assert mx[0] in multiset(my);
      assert my == [my[0]];
    }
  }

  /** The options with a given text, as a multiset, are the multiset of
      options restricted to that text. */
  lemma {:induction false} MatchingMultiset(xs: seq<Answer>, t: string)
    ensures forall a :: multiset(AnswersWithText(xs, t))[a] == if a.text == t then multiset(xs)[a] else 0
  {
    if xs != [] {
      MatchingMultiset(xs[1..], t);
      assert xs == [xs[0]] + xs[1..];
    }
  }
}
