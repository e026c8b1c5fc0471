/** `question_import_excel` (quiz/views.py:359-412): every data row of the
    first sheet of an uploaded workbook becomes, at most, one single-choice
    question with its options; and the fixed options `question_create` gives
    a true/false question (quiz/views.py:166-170). Reading the workbook is
    replaced by its rows of cells. */
module SheetImport {
  import opened Base
  import opened Catalog
  import opened Grading

  /** A cell value as the workbook reader delivers it: empty, text, or a
      whole number. */
  datatype Cell = Blank | Text(s: string) | Number(n: int)

  /** Python truthiness of a cell value. */
  predicate Truthy(c: Cell) {
    match c
    case Blank => false
    case Text(s) => s != []
    case Number(n) => n != 0
  }

  /** `str(value)`. */
  function Str(c: Cell): string {
    match c
    case Blank => "None"
    case Text(s) => s
    case Number(n) => IntToString(n)
  }

  /** `str(value).strip()`, the form every stored text takes. */
  function Clean(c: Cell): string {
    Strip(Str(c))
  }

  /** `int(value)`; `None` where Python raises. */
  function CellInt(c: Cell): Option<int> {
    match c
    case Blank => None
    case Text(s) => ParseInt(s)
    case Number(n) => Some(n)
  }

  /** The cells a row must have filled in: subject, question, difficulty,
      the first two options and the correct index. */
  const Required: seq<nat> := [0, 1, 2, 3, 4, 7]

  /** `all(row[i] for i in idxs)`, which stops at the first empty cell;
      `None` where it reaches an index past the row's end (IndexError). */
  function AllPresent(row: seq<Cell>, idxs: seq<nat>): (r: Option<bool>)
    ensures r == Some(true) <==> forall k :: 0 <= k < |idxs| ==> idxs[k] < |row| && Truthy(row[idxs[k]])
  {
    if idxs == [] then Some(true)
    else if idxs[0] >= |row| then None
    else if !Truthy(row[idxs[0]]) then Some(false)
    else AllPresent(row, idxs[1..])
  }

  /** The check raises exactly when it reaches a missing cell before any
      empty one. */
  lemma {:induction false} AllPresentFails(row: seq<Cell>, idxs: seq<nat>)
    ensures AllPresent(row, idxs).None? <==>
      exists k :: 0 <= k < |idxs| && idxs[k] >= |row| && ReachedFilled(row, idxs, k)
  {
    if idxs != [] && idxs[0] < |row| && Truthy(row[idxs[0]]) {
      AllPresentFails(row, idxs[1..]);
      if AllPresent(row, idxs).None? {
        var k :| 0 <= k < |idxs[1..]| && idxs[1..][k] >= |row| && ReachedFilled(row, idxs[1..], k);
        assert ReachedFilled(row, idxs, k + 1);
      }
      if exists k :: 0 <= k < |idxs| && idxs[k] >= |row| && ReachedFilled(row, idxs, k) {
        var k :| 0 <= k < |idxs| && idxs[k] >= |row| && ReachedFilled(row, idxs, k);
        assert k > 0;
        assert ReachedFilled(row, idxs[1..], k - 1);
      }
    } else if idxs != [] && idxs[0] < |row| {
      assert forall k :: 0 < k < |idxs| ==> !ReachedFilled(row, idxs, k);
    }
  }

  /** Every index before position `k` of `idxs` names a filled cell. */
  predicate ReachedFilled(row: seq<Cell>, idxs: seq<nat>, k: nat)
    requires k <= |idxs|
  {
    forall j :: 0 <= j < k ==> idxs[j] < |row| && Truthy(row[idxs[j]])
  }

  /** `value in Question.Difficulty.values`. */
  function DifficultyOf(s: string): Option<Difficulty> {
    if s == "EASY" then Some(Easy)
    else if s == "MEDIUM" then Some(Medium)
    else if s == "HARD" then Some(Hard)
    else None
  }

  /** An answer option about to be created. */
  datatype AnswerDraft = AnswerDraft(text: string, isCorrect: bool)

  /** A question about to be created, with the options created for it. */
  datatype QuestionDraft = QuestionDraft(
    subject: string,
    text: string,
    difficulty: Difficulty,
    qtype: QuestionType,
    author: int,
    answers: seq<AnswerDraft>)

  /** What one row does: skipped, imported, or stopping the import with an
      exception. */
  datatype RowStatus = Skipped | Accepted | Failed

  /** The subject the row looked up or created, the question it created,
      and how it ended. */
  datatype RowEffect = RowEffect(subject: Option<string>, question: Option<QuestionDraft>, status: RowStatus)

  /** The numbers, counted from `first`, of the filled cells among
      `cells`: the option slots that get an option. */
  function SlotNumbers(cells: seq<Cell>, first: int): (r: seq<int>)
    ensures |r| <= |cells|
    ensures forall k :: 0 <= k < |r| ==> first <= r[k] < first + |cells|
  {
    if cells == [] then []
    else (if Truthy(cells[0]) then [first] else []) + SlotNumbers(cells[1..], first + 1)
  }

  /** The slot numbers ascend and are exactly the filled slots. */
  lemma {:induction false} SlotNumbersExact(cells: seq<Cell>, first: int)
    ensures forall i, j :: 0 <= i < j < |SlotNumbers(cells, first)| ==>
      SlotNumbers(cells, first)[i] < SlotNumbers(cells, first)[j]
    ensures forall x :: x in SlotNumbers(cells, first) <==> first <= x < first + |cells| && Truthy(cells[x - first])
    decreases |cells|
  {
    if cells != [] {
      SlotNumbersExact(cells[1..], first + 1);
      assert forall k :: 0 <= k < |cells| - 1 ==> cells[1..][k] == cells[k + 1];
    }
  }

  /** The options of an imported row: one per filled cell among cells 3 to
      6, in order, correct exactly when its slot number (1 to 4) is the
      row's correct index. */
  function RowAnswers(row: seq<Cell>, correct: int): (r: seq<AnswerDraft>)
    requires |row| >= 7
  {
    var slots := SlotNumbers(row[3..7], 1);
    seq(|slots|, j requires 0 <= j < |slots| => AnswerDraft(Clean(row[2 + slots[j]]), slots[j] == correct))
  }

  /** One pass of the row loop (quiz/views.py:372-403). The subject is
      looked up or created before the difficulty is checked, and the
      question is created before the correct index is converted, so a bad
      index leaves a question with no options behind. */
  function ImportRow(row: seq<Cell>, author: int): (e: RowEffect)
    ensures e.status == Accepted ==> e.question.Some?
    ensures e.question.Some? ==> e.subject == Some(e.question.value.subject)
    ensures e.status == Failed && e.question.Some? ==>
      |row| >= 8 && CellInt(row[7]).None? && e.question.value.answers == []
  {
    match AllPresent(row, Required)
    case None => RowEffect(None, None, Failed)
    case Some(present) =>
      if !present then RowEffect(None, None, Skipped)
      else
        assert Required[5] < |row|;
        var subject := Clean(row[0]);
        match DifficultyOf(Upper(Clean(row[2])))
        case None => RowEffect(Some(subject), None, Skipped)
        case Some(d) =>
          var text := Clean(row[1]);
          match CellInt(row[7])
          case None => RowEffect(Some(subject), Some(QuestionDraft(subject, text, d, SingleChoice, author, [])), Failed)
          case Some(k) =>
            RowEffect(Some(subject), Some(QuestionDraft(subject, text, d, SingleChoice, author, RowAnswers(row, k))), Accepted)
  }

  /** A row is imported exactly when its six required cells are filled, its
      stripped, upper-cased difficulty is one of the three levels, and its
      correct index is an integer. */
  lemma RowAcceptedIff(row: seq<Cell>, author: int)
    ensures ImportRow(row, author).status == Accepted <==>
      && Filled(row)
      && DifficultyOf(Upper(Clean(row[2]))).Some?
      && CellInt(row[7]).Some?
  {
    RequiredPresent(row);
  }

  /** A row that passes the presence and difficulty checks but whose
      correct index is not an integer stops the import, and leaves behind
      its subject and a question by the importer with no options. */
  lemma BadIndexLeavesBareQuestion(row: seq<Cell>, author: int)
    requires Filled(row)
    requires DifficultyOf(Upper(Clean(row[2]))).Some?
    requires CellInt(row[7]).None?
    ensures var e := ImportRow(row, author);
      && e.status == Failed
      && e.subject == Some(Clean(row[0]))
      && e.question == Some(QuestionDraft(Clean(row[0]), Clean(row[1]),
           DifficultyOf(Upper(Clean(row[2]))).value, SingleChoice, author, []))
  {
    RequiredPresent(row);
  }

  /** The six required cells exist and are filled. */
  predicate Filled(row: seq<Cell>) {
    |row| >= 8 && Truthy(row[0]) && Truthy(row[1]) && Truthy(row[2]) && Truthy(row[3]) && Truthy(row[4]) && Truthy(row[7])
  }

  /** The presence check passes exactly on a row whose required cells are
      filled. */
  lemma RequiredPresent(row: seq<Cell>)
    ensures AllPresent(row, Required) == Some(true) <==> Filled(row)
  {
    var r := Required;
    assert r[0] == 0 && r[1] == 1 && r[2] == 2 && r[3] == 3 && r[4] == 4 && r[5] == 7 && |r| == 6;
    if Filled(row) {
      assert forall k :: 0 <= k < |r| ==> r[k] < |row| && Truthy(row[r[k]]);
    }
  }

  /** A skipped row creates no question, though one rejected only for its
      difficulty has already looked up or created its subject. */
  lemma SkippedRowCreatesNoQuestion(row: seq<Cell>, author: int)
    ensures ImportRow(row, author).status == Skipped ==> ImportRow(row, author).question.None?
    ensures ImportRow(row, author).status == Skipped && ImportRow(row, author).subject.Some? ==>
      |row| >= 8 && DifficultyOf(Upper(Clean(row[2]))).None? &&
      ImportRow(row, author).subject == Some(Clean(row[0]))
  {
    RequiredPresent(row);
  }

  /** An imported row gives a single-choice question by the importing
      user, with the stripped cell texts, and two to four options. */
  lemma AcceptedRowShape(row: seq<Cell>, author: int)
    requires ImportRow(row, author).status == Accepted
    ensures var q := ImportRow(row, author).question.value;
      && |row| >= 8
      && q.qtype == SingleChoice
      && q.author == author
      && q.subject == Clean(row[0]) && q.text == Clean(row[1])
      && DifficultyOf(Upper(Clean(row[2]))) == Some(q.difficulty)
      && 2 <= |q.answers| <= 4
  {
    RowAcceptedIff(row, author);
    var cells := row[3..7];
    assert cells[1..][1..] == row[5..7];
    assert SlotNumbers(cells, 1) == [1] + ([2] + SlotNumbers(row[5..7], 3));
  }

  /** Of an imported row's options at most one is correct, and one is
      exactly when the correct index is 1 to 4 and names a filled option
      cell. */
  lemma AtMostOneCorrect(row: seq<Cell>, author: int)
    requires ImportRow(row, author).status == Accepted
    ensures |row| >= 8 && CellInt(row[7]).Some?
    ensures var answers := ImportRow(row, author).question.value.answers;
      forall i, j :: 0 <= i < j < |answers| ==> !(answers[i].isCorrect && answers[j].isCorrect)
    ensures var answers := ImportRow(row, author).question.value.answers;
      var k := CellInt(row[7]).value;
      (exists i :: 0 <= i < |answers| && answers[i].isCorrect) <==> 1 <= k <= 4 && Truthy(row[2 + k])
  {
    AcceptedAnswers(row, author);
    RowAnswersCorrect(row, CellInt(row[7]).value);
  }

  /** An imported row's options are the ones its option cells give, for
      its correct index. */
  lemma AcceptedAnswers(row: seq<Cell>, author: int)
    requires ImportRow(row, author).status == Accepted
    ensures |row| >= 8 && CellInt(row[7]).Some?
    ensures ImportRow(row, author).question.value.answers == RowAnswers(row, CellInt(row[7]).value)
  {
    RowAcceptedIff(row, author);
  }

  /** Options made for correct index `k` mark at most one option correct,
      and one exactly when `k` is a filled slot. */
  lemma RowAnswersCorrect(row: seq<Cell>, k: int)
    requires |row| >= 7
    ensures forall i, j :: 0 <= i < j < |RowAnswers(row, k)| ==>
      !(RowAnswers(row, k)[i].isCorrect && RowAnswers(row, k)[j].isCorrect)
    ensures (exists i :: 0 <= i < |RowAnswers(row, k)| && RowAnswers(row, k)[i].isCorrect) <==>
      1 <= k <= 4 && Truthy(row[2 + k])
  {
    var answers := RowAnswers(row, k);
    var slots := SlotNumbers(row[3..7], 1);
    assert forall i :: 0 <= i < |answers| ==> (answers[i].isCorrect <==> slots[i] == k);
    SlotNumbersExact(row[3..7], 1);
    if exists i :: 0 <= i < |answers| && answers[i].isCorrect {
      var i :| 0 <= i < |answers| && answers[i].isCorrect;
      assert slots[i] in slots;
    }
    if 1 <= k <= 4 {
      assert row[3..7][k - 1] == row[2 + k];
      if Truthy(row[2 + k]) {
        assert k in slots;
        var i :| 0 <= i < |slots| && slots[i] == k;
        assert answers[i].isCorrect;
      }
    }
  }

  /** The running state of the row loop: the subjects looked up or created,
      the questions created, the count of imported rows, and whether an
      exception ended the loop. */
  datatype Progress = Progress(subjects: set<string>, created: seq<QuestionDraft>, count: nat, failed: bool)

  /** The effect of one row on the running state. */
  function Apply(p: Progress, e: RowEffect): Progress {
    Progress(
      p.subjects + (if e.subject.Some? then {e.subject.value} else {}),
      p.created + (if e.question.Some? then [e.question.value] else []),
      p.count + (if e.status == Accepted then 1 else 0),
      e.status == Failed)
  }

  /** The row loop over the data rows, stopping at the first exception. */
  function ImportAll(rows: seq<seq<Cell>>, author: int): Progress
  {
    if rows == [] then Progress({}, [], 0, false)
    else
      var p := ImportAll(rows[..|rows| - 1], author);
      if p.failed then p else Apply(p, ImportRow(rows[|rows| - 1], author))
  }

  /** The count never exceeds the questions created, which never exceed
      the rows read. */
  lemma {:induction false} CountBounds(rows: seq<seq<Cell>>, author: int)
    ensures var p := ImportAll(rows, author);
      p.count <= |p.created| <= |rows|
  {
    if rows != [] {
      CountBounds(rows[..|rows| - 1], author);
    }
  }

  /** What was written before a row stays written whatever later rows do:
      the import is not one transaction. */
  lemma {:induction false} EarlierRowsPersist(rows: seq<seq<Cell>>, author: int, i: nat)
    requires i <= |rows|
    ensures var before, after := ImportAll(rows[..i], author), ImportAll(rows, author);
      && before.subjects <= after.subjects
      && before.created <= after.created
      && before.count <= after.count
  {
    if i < |rows| {
      var init := rows[..|rows| - 1];
      assert rows[..i] == init[..i];
      EarlierRowsPersist(init, author, i);
    } else {
      assert rows[..i] == rows;
    }
  }

  /** A failed import failed at one row: everything before it ran without
      an exception, the failing row's effect was applied, and nothing after
      it was read. */
  lemma {:induction false} StopsAtFirstFailure(rows: seq<seq<Cell>>, author: int)
    requires ImportAll(rows, author).failed
    ensures exists i :: 0 <= i < |rows| && FailedAt(rows, author, i)
  {
    var init := rows[..|rows| - 1];
    var p := ImportAll(init, author);
    if p.failed {
      StopsAtFirstFailure(init, author);
      var i :| 0 <= i < |init| && FailedAt(init, author, i);
      assert rows[..i] == init[..i] && rows[..i + 1] == init[..i + 1] && rows[i] == init[i];
      assert FailedAt(rows, author, i);
    } else {
      assert rows[..|rows|] == rows;
      assert FailedAt(rows, author, |rows| - 1);
    }
  }

  /** Row `i` raised the exception that ended the import of `rows`. */
  predicate FailedAt(rows: seq<seq<Cell>>, author: int, i: nat)
    requires i < |rows|
  {
    && !ImportAll(rows[..i], author).failed
    && ImportRow(rows[i], author).status == Failed
    && ImportAll(rows, author) == Apply(ImportAll(rows[..i], author), ImportRow(rows[i], author))
  }

  /** One loop step in terms of the prefix function. */
  lemma ImportStep(rows: seq<seq<Cell>>, author: int, i: nat)
    requires i < |rows|
    requires !ImportAll(rows[..i], author).failed
    ensures ImportAll(rows[..i + 1], author) == Apply(ImportAll(rows[..i], author), ImportRow(rows[i], author))
  {
    assert rows[..i + 1][..i] == rows[..i];
  }

  /** Once the loop has failed it reads no further row. */
  lemma {:induction false} FailedStays(rows: seq<seq<Cell>>, author: int, i: nat)
    requires i <= |rows|
    requires ImportAll(rows[..i], author).failed
    ensures ImportAll(rows, author) == ImportAll(rows[..i], author)
    decreases |rows| - i
  {
    if i < |rows| {
      var init := rows[..|rows| - 1];
      assert init[..i] == rows[..i];
      FailedStays(init, author, i);
    } else {
      assert rows[..i] == rows;
    }
  }

  /** The uploaded file: missing, or a name with the workbook's rows
      (`None` when the file does not open as a workbook). */
  datatype Upload = NoFile | Upload(name: string, sheet: Option<seq<seq<Cell>>>)

  /** How the view ends: the upload form (a GET), a refused file, the
      success message with its count, or the error message. */
  datatype ImportOutcome = ImportForm | WrongFile | Imported(count: nat) | ImportFailed

  predicate EndsWith(s: string, suffix: string) {
    |suffix| <= |s| && s[|s| - |suffix|..] == suffix
  }

  /** The rows `iter_rows(min_row=2)` yields: all but the header row. */
  function DataRows(sheet: seq<seq<Cell>>): seq<seq<Cell>> {
    if sheet == [] then [] else sheet[1..]
  }

  /** The subjects and questions the import writes to. */
  class QuestionBank {
    var subjects: set<string>
    var questions: seq<QuestionDraft>

    constructor ()
      ensures subjects == {} && questions == []
    {
      subjects := {};
      questions := [];
    }

    /** `question_import_excel`: refuses a missing file or one whose name
        does not end in `.xlsx`, then reads the data rows one by one,
        writing each row's subject and question as it goes; an exception
        ends the loop and keeps what was written. */
    method ImportExcel(isPost: bool, upload: Upload, author: int) returns (out: ImportOutcome)
      modifies this
      ensures !isPost ==> out == ImportForm && unchanged(this)
      ensures isPost && (upload.NoFile? || !EndsWith(upload.name, ".xlsx")) ==>
        out == WrongFile && unchanged(this)
      ensures isPost && upload.Upload? && EndsWith(upload.name, ".xlsx") && upload.sheet.None? ==>
        out == ImportFailed && unchanged(this)
      ensures isPost && upload.Upload? && EndsWith(upload.name, ".xlsx") && upload.sheet.Some? ==>
        var p := ImportAll(DataRows(upload.sheet.value), author);
        && subjects == old(subjects) + p.subjects
        && questions == old(questions) + p.created
        && out == (if p.failed then ImportFailed else Imported(p.count))
    {
      if !isPost {
        return ImportForm;
      }
      if upload.NoFile? || !EndsWith(upload.name, ".xlsx") {
        return WrongFile;
      }
      if upload.sheet.None? {
        return ImportFailed;
      }
      var count, failed := ImportRows(DataRows(upload.sheet.value), author);
      out := if failed then ImportFailed else Imported(count);
    }

    /** The row loop of the import. */
    method ImportRows(rows: seq<seq<Cell>>, author: int) returns (count: nat, failed: bool)
      modifies this
      ensures var p := ImportAll(rows, author);
        && subjects == old(subjects) + p.subjects
        && questions == old(questions) + p.created
        && count == p.count && failed == p.failed
    {
      count := 0;
      var i := 0;
      ghost var p := ImportAll(rows[..0], author);
      while i < |rows|
        invariant 0 <= i <= |rows|
        invariant p == ImportAll(rows[..i], author) && !p.failed
        invariant subjects == old(subjects) + p.subjects
        invariant questions == old(questions) + p.created
        invariant count == p.count
      {
        var e := ImportRow(rows[i], author);
        ImportStep(rows, author, i);
        if e.subject.Some? {
          subjects := subjects + {e.subject.value};
        }
        if e.question.Some? {
          questions := questions + [e.question.value];
        }
        p := Apply(p, e);
        if e.status == Failed {
          FailedStays(rows, author, i + 1);
          return count, true;
        }
        if e.status == Accepted {
          count := count + 1;
        }
        i := i + 1;
      }
      assert rows[..i] == rows;
      failed := false;
    }
  }

  /** The options `question_create` saves with a new question: the fixed
      pair for true/false, none for a short answer, and the submitted
      options for a choice question when they are valid (`None`: the form
      is shown again and nothing is saved). */
  function CreatedOptions(qtype: QuestionType, formsetValid: bool, submitted: seq<AnswerDraft>): (r: Option<seq<AnswerDraft>>)
    ensures qtype == TrueFalse ==> r == Some([AnswerDraft(TrueText, true), AnswerDraft(FalseText, false)])
    ensures qtype == ShortAnswer ==> r == Some([])
    ensures IsChoice(qtype) && qtype != TrueFalse ==> (r.Some? <==> formsetValid) && (r.Some? ==> r.value == submitted)
  {
    match qtype
    case TrueFalse => Some([AnswerDraft(TrueText, true), AnswerDraft(FalseText, false)])
    case ShortAnswer => Some([])
    case _ => if formsetValid then Some(submitted) else None
  }

  /** The options once saved under a question id, with their new ids. */
  function Persist(question: int, ids: seq<int>, drafts: seq<AnswerDraft>): (r: seq<Answer>)
    requires |ids| == |drafts|
    ensures |r| == |drafts|
    ensures forall k :: 0 <= k < |r| ==> r[k] == Answer(ids[k], question, drafts[k].text, drafts[k].isCorrect)
  {
    seq(|drafts|, k requires 0 <= k < |drafts| => Answer(ids[k], question, drafts[k].text, drafts[k].isCorrect))
  }

  /** A true/false question saved by `question_create` is graded by its
      literal mapping: a value that lowercases to `'true'` earns the point
      and any other value does not. */
  lemma CreatedTrueFalseGrades(question: int, ids: seq<int>, table: AnswerTable, post: Post, v: string)
    requires |ids| == 2
    requires Get(post, QuestionField(question)) == Some(v) && v != ""
    ensures var opts := CreatedOptions(TrueFalse, false, []).value;
      var q := Question(question, TrueFalse, Persist(question, ids, opts));
      MarkQuestion(q, table, post).Ok? && (MarkQuestion(q, table, post).value.credit <==> Lower(v) == "true")
  {
    var opts := CreatedOptions(TrueFalse, false, []).value;
    var q := Question(question, TrueFalse, Persist(question, ids, opts));
    assert q.answers == [Answer(ids[0], question, TrueText, true), Answer(ids[1], question, FalseText, false)];
    CreatedTrueFalseCredit(q, table, post, v);
  }
}
