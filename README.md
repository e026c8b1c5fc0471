# Online quiz (Django): a Dafny model of the grading, practice, import and access rules

This project models the core of an online quiz site written in Django.

- **Teachers** write questions: single choice, multiple choice, true/false and short answer. They type them in or import them from a spreadsheet, group them into quizzes and grade short answers by hand.
- **Students** join private quizzes with a six-character access code. They take quizzes in a shuffled order, submit them for a score, practise on quizzes that allow several attempts, and open support tickets to teachers or administrators.

The model covers the rules in `quiz/views.py`, `quiz/models.py` and `users/decorators.py` that decide scores, rows written and access. It is written as:

- functions over the submitted form, the answer table and the stored rows;
- classes, for the tables that views change in place: `Gradebook.Gradebook`, `Practice.PracticeLog`, `SheetImport.QuestionBank`, `Access.Ticket` and `QuizModel.QuizRecord`.

Modules:

- `Base`: Python string and number behaviour the views rely on: `str.strip` over Python's whitespace, `str.upper`/`lower` for ASCII, `int()` on text, and `round()` with ties to even on exact reals.
- `Catalog`: the data. Users and roles, questions and options, the answer table, quizzes, and the POST form. A field's `get` gives the last value and `getlist` gives all of them.
- `Grading`: the per-question credit rules of `submit_quiz` and the score they add up to.
- `Gradebook`: the `Result` and `StudentAnswer` tables, with `submit_quiz` and `grade_short_answer` as methods that change them.
- `Attempt`: the entry checks of `take_quiz` and its shuffling of questions and options.
- `Practice`: `is_answer_correct`, `calculate_practice_score`, `calculate_improvement` and the practice submission.
- `SheetImport`: the spreadsheet import row by row, and the options `question_create` gives a new question.
- `Access`: joining with a code, support-ticket permissions and the read flag, new tickets, password change and the dashboard's correct-answer rate.
- `QuizModel`: the access code `Quiz.save` assigns.
- `Decorators`: `student_required` and `teacher_required`.

An uncaught exception is an explicit outcome: `Abort`, `Failed`, `StatusCrash` or `PasswordCrash`. Views with `transaction.atomic` roll back on it; the import view, which has no atomic block, keeps what it wrote.

Things that may surprise a reader of the views (each stated by a contract or lemma named in the table below):

- `submit_quiz` refuses a second submission even on a quiz that allows several attempts. `take_quiz` opens that quiz again, so the student can start an attempt that cannot be submitted.
- A single-choice answer is looked up in the whole answer table. The id of a correct option of another question earns the point.
- Practice and graded marking disagree in three ways:
  - the same correct id submitted twice;
  - a correct option of another question;
  - a multiple-choice question with no correct option.

  Practice also counts every short answer as correct.
- `calculate_improvement` compares with the second-newest practice result, but the current attempt is stored before it is called. So one earlier attempt is enough to get an improvement figure, where two might be expected.
- When a re-grade leaves a points field blank, that row keeps its old points. The result's `short_answer_score` then leaves them out.
- A teacher who opened a ticket to the administrators cannot open their own ticket.
- `update_ticket_status` reads `SupportTicket.STATUS_CHOICES`, which the model class does not define (`support/models.py` has an inner `Status` class). Every authorised request that names a status therefore raises AttributeError before writing.
- `change_password` with neither a new password nor a confirmation passes the equality check and then fails on `len(None)`.
- An import row whose correct index is not an integer leaves behind a question with no options, created just before the conversion. It also stops the import, and earlier rows stay imported.

## Model

| member | source | states |
|---|---|---|
| Grading.ParseAll | quiz/views.py:639 | A successful conversion gives one integer per submitted value, each the value read as an integer |
| Grading.ParseAllFails | quiz/views.py:639 | Converting the submitted ids fails exactly when some value is not an integer |
| Grading.ExistingDrafts | quiz/views.py:642-651 | The multiple-choice rows are one per selected id that exists in the answer table, each for this question with that option and no text |
| Grading.ExistingDraftsDistinct | quiz/views.py:639-651 | Distinct selected ids (the set built from the submitted values) give distinct rows |
| Grading.SingleChoiceCredit | quiz/views.py:617-631 | Single choice aborts exactly on a non-empty value that is not an integer. It earns the point exactly when the last value names an existing answer flagged correct, of any question. It creates at most one row |
| Grading.MultipleChoiceCredit | quiz/views.py:633-655 | Multiple choice aborts exactly when some submitted value is not an integer. It earns the point exactly when values were submitted and their set of ids equals the question's correct ids |
| Grading.MultipleChoiceNoPartialCredit | quiz/views.py:653-655 | An empty answer, a strict subset or a strict superset of the correct ids earns nothing |
| Grading.MultipleChoiceRows | quiz/views.py:638-651 | The rows created are duplicate-free, belong to the question, and are exactly the submitted ids that exist in the answer table |
| Grading.TrueFalseCredit | quiz/views.py:657-678 | No value, or no correct option, gives no point and no row. Otherwise it earns the point exactly when the option whose text is 'Đúng' (for a value lowercasing to 'true') or 'Sai' (any other value) is the only such option and is correct |
| Grading.CreatedTrueFalseCredit | quiz/views.py:657-678 | For the option pair that question creation stores, in either order, a value earns the point exactly when it lowercases to 'true', and never aborts |
| Grading.ShortAnswerNeverScores | quiz/views.py:680-690 | A short answer never aborts and never earns a point. It creates one row holding the stripped text exactly when that text is not empty |
| Grading.GradeAllStops | quiz/views.py:616-690 | When the first i questions run cleanly and question i raises, the submission fails with question i's error |
| Grading.AbortPropagates | quiz/views.py:594-690 | Once a prefix of the questions aborts, the whole submission aborts with that same error |
| Grading.Scorable | quiz/views.py:693-694 | The scorable count is the number of positions whose question is not a short answer, so at most all questions |
| Grading.CorrectAtMostScorable | quiz/views.py:692-694 | The points counted never exceed the number of questions that are not short answers |
| Grading.GradedScoreRange | quiz/views.py:692-701 | The score is 0 with no scorable question; the exact and the rounded score both lie in [0, 100] |
| Grading.MarkReadsChoiceField | quiz/views.py:616-690 | A question's verdict and error depend only on its own choice field |
| Grading.ShortAnswerTextIrrelevant | quiz/views.py:680-701 | Two forms that agree on every choice field give the same error or the same number of points, whatever the short-answer texts |
| Grading.RowsOnlyForAnswered | quiz/views.py:616-690 | Every created row belongs to a question of the quiz that has something submitted under one of its two field names |
| Grading.ChoiceCreditIgnoresOptionOrder | quiz/views.py:617-678 | Re-ordering a question's options changes neither whether it aborts nor whether it earns the point |
| Gradebook.SubmissionGate | quiz/views.py:597-609 | A request that is not a POST is refused first, then a closed quiz, then a repeated submission; it goes ahead exactly when none of these applies |
| Gradebook.GateIgnoresMultipleAttempts | quiz/views.py:603-609 | The multiple-attempts flag plays no part: a quiz that allows retakes still refuses a second submission |
| Gradebook.FindResult | quiz/views.py:1106 | The lookup finds a row with the requested id, or reports that no row has it |
| Gradebook.GradeRows | quiz/views.py:1113-1125 | Grading keeps every row's id, links and answer. Rows that are not accepted stay as they were; an accepted row gets the submitted points and the submitted comment, or an empty comment when none is sent |
| Gradebook.RegradeIdempotent | quiz/views.py:1113-1137 | Grading again with the same form changes no row and gives the same total and count |
| Gradebook.CountAtMostVisited | quiz/views.py:1113-1128 | The count of graded rows is at most the number of rows; with no accepted row, total and count are 0 |
| Gradebook.PointsSumNonNegative | quiz/views.py:1127 | With non-negative marks the total is non-negative |
| Gradebook.PointsSumAppend | quiz/views.py:1113-1127 | The total over two runs of rows joined is the sum of their two totals |
| Gradebook.KeptPointsLeftOutOfScore | quiz/views.py:1113-1134 | For any visited row whose points field is missing or not a number, re-grading keeps that row as it was, earlier points included, and the short-answer score is the total of the other rows |
| Gradebook.AppendSubmissionValid | quiz/views.py:614-690 | Adding one Result with its answer rows keeps the keys increasing and every answer row pointing at an existing Result |
| Gradebook.RegradeValid | quiz/views.py:1123-1137 | Updating a Result and its answer rows in place, keys and links unchanged, keeps the tables valid |
| Gradebook.MarkAll | quiz/views.py:616-690 | The question loop returns the per-question points and rows added up in order, or the first error |
| Gradebook.Gradebook.SubmitQuiz | quiz/views.py:595-705 | A refused or aborted submission leaves both tables unchanged. A successful one appends exactly one Result, with the rounded score of the graded answers, and its answer rows, and returns the new Result's id; the table invariant is kept |
| Gradebook.Gradebook.StoreGrades | quiz/views.py:1113-1131 | The grading loop leaves the answer rows graded and returns the total and the count of accepted rows |
| Gradebook.Gradebook.GradeShortAnswer | quiz/views.py:1104-1140 | An unknown result is a 404 and a GET shows the form, both changing nothing. A POST grades the rows and marks the result graded, with the accepted points as its short-answer score and the overall feedback |
| Attempt.FirstResult | quiz/views.py:545 | There is an earlier result exactly when the student has one for the quiz, and the one returned is the first in the table |
| Attempt.AttemptGate | quiz/views.py:536-559 | A private quiz refuses a student who is not on its list. A student who may enter is sent to their earlier result exactly when the quiz allows one attempt and they have one; past that, the quiz has ended exactly when now is after its end, and otherwise has not started exactly when now is before its start. The student is let in exactly when none of these applies |
| Attempt.AttemptGateOrder | quiz/views.py:538-556 | A repeat on a single-attempt quiz is sent to the earlier result even after the quiz has closed |
| Attempt.RetakeOpensButCannotSubmit | quiz/views.py:543-551 | On a quiz that allows retakes, a student with a result is let in to take it again, while the submission is refused as already submitted |
| Attempt.Shuffle | quiz/views.py:563 | A shuffle has as many elements as its input |
| Attempt.ShufflePermutes | quiz/views.py:563 | A shuffle is a permutation of what it shuffles |
| Attempt.ShuffleReachesEveryOrder | quiz/views.py:563-570 | Every permutation is the result of some draws |
| Attempt.TakeQuiz | quiz/views.py:532-590 | A refused student gets the gate's reason. Otherwise the shown list is the shuffled questions, each choice question with its shuffled options and each short answer with none |
| Attempt.PresentationIsRearrangement | quiz/views.py:561-582 | What is shown is a permutation of the quiz's questions, each choice question with a permutation of its own options and each short answer with none |
| Attempt.ShownOrderIsNotGraded | quiz/views.py:570 | The option order shown does not change the graded verdict |
| Practice.LookupCorrect | quiz/views.py:1020-1028 | A single value is correct exactly when it is an integer naming an answer flagged correct. It raises exactly when it is non-empty and not an integer |
| Practice.PracticeCorrect | quiz/views.py:988-990 | The number of questions accepted is at most the number of questions |
| Practice.PracticeCorrectOk | quiz/views.py:988-990 | The count succeeds exactly when no question's check raises |
| Practice.PracticeCorrectCounts | quiz/views.py:988-990 | A successful count is the number of positions whose question `is_answer_correct` accepts |
| Practice.CalculatePracticeScore | quiz/views.py:980-992 | An empty quiz scores 0. Otherwise the score is the rounded percentage of accepted questions among all questions, or the first error |
| Practice.PracticeAbortPropagates | quiz/views.py:988-990 | Once a prefix of the questions raises, the practice score raises with that error |
| Practice.PracticeScoreRange | quiz/views.py:985-992 | The practice score lies in [0, 100]; it is 0 for an empty quiz and 100 when every question is accepted |
| Practice.ShortAnswersCount | quiz/views.py:1017-1019 | A quiz of short answers only has every question accepted |
| Practice.SingleChoiceAgrees | quiz/views.py:1020-1028 | For single choice, practice and graded marking raise on the same forms and agree on the verdict |
| Practice.MultipleChoiceAgrees | quiz/views.py:1029-1033 | For multiple choice with non-empty, distinct ids that are all options of the question, the count comparison agrees with the graded set comparison |
| Practice.DuplicateIdDisagrees | quiz/views.py:1029-1033 | The one correct id submitted twice is wrong in practice and earns the graded point |
| Practice.ForeignCorrectIdCounts | quiz/views.py:1032-1033 | A correct option of another question answers a one-correct-option question in practice, and earns nothing when graded |
| Practice.NoCorrectOptionDisagrees | quiz/views.py:1029-1033 | For any multiple-choice question with no correct option and any form with nothing submitted for it, practice accepts it while grading gives no point and no row |
| Practice.ImprovementSign | quiz/views.py:881-892 | Improvement is 0 without an earlier score or when that score is 0; otherwise it has the sign of the change |
| Practice.ScoresNewestFirst | quiz/views.py:883-886 | There is one score per stored row of this student at this quiz, and each is the score of such a row |
| Practice.ScoresAppend | quiz/views.py:883-889 | A newly stored row of this student at this quiz comes first in the history; any other row leaves it unchanged |
| Practice.ImprovementAgainstPreviousAttempt | quiz/views.py:857-872 | Because the attempt is stored first, improvement compares with the attempt just before it, so one earlier attempt suffices |
| Practice.PracticeLog.SubmitPractice | quiz/views.py:842-879 | A GET, a quiz without retakes, or an error store nothing. Otherwise exactly one practice row is appended, with the score and counts, and the improvement is computed against the stored history |
| SheetImport.AllPresent | quiz/views.py:374 | The presence check passes exactly when every listed index is inside the row and its cell is truthy |
| SheetImport.AllPresentFails | quiz/views.py:374 | The presence check raises IndexError exactly when it reaches an index past the row's end with every cell before it filled |
| SheetImport.SlotNumbers | quiz/views.py:396-397 | The slot numbers of the filled option cells lie in 1 to 4, at most one per cell |
| SheetImport.SlotNumbersExact | quiz/views.py:396-397 | The option slots given options ascend and are exactly the filled option cells |
| SheetImport.ImportRow | quiz/views.py:372-403 | An imported row always creates a question; a created question's subject is the subject created for the row. A row that creates a question and then raises has a non-integer correct index and its question has no options |
| SheetImport.BadIndexLeavesBareQuestion | quiz/views.py:385-394 | A filled row with a valid difficulty and a non-integer correct index raises after creating its subject and a single-choice question with no options |
| SheetImport.RowAcceptedIff | quiz/views.py:374-394 | A row is imported exactly when its six required cells are filled, its stripped, upper-cased difficulty is a level, and its correct index is an integer |
| SheetImport.RequiredPresent | quiz/views.py:374 | The presence check passes exactly when the row has cells 0 to 4 and 7 all filled |
| SheetImport.SkippedRowCreatesNoQuestion | quiz/views.py:374-382 | A skipped row creates no question; if it touched a subject it was skipped for its difficulty, and the subject is its stripped first cell |
| SheetImport.AcceptedRowShape | quiz/views.py:377-402 | An imported row gives a single-choice question by the importer, with the stripped subject, text and difficulty, and two to four options |
| SheetImport.AtMostOneCorrect | quiz/views.py:393-402 | At most one option is correct, and one is correct exactly when the index is 1 to 4 and names a filled option cell |
| SheetImport.AcceptedAnswers | quiz/views.py:393-402 | An imported row's options are those its filled option cells give for its correct index |
| SheetImport.RowAnswersCorrect | quiz/views.py:396-402 | Options built for index k mark at most one correct, and one exactly when k is a filled slot |
| SheetImport.CountBounds | quiz/views.py:403 | The success count is at most the questions created, which are at most the rows read |
| SheetImport.EarlierRowsPersist | quiz/views.py:367-410 | Subjects, questions and count written by earlier rows stay whatever later rows do |
| SheetImport.StopsAtFirstFailure | quiz/views.py:372-410 | A failed import failed at one row: every row before it ran cleanly and nothing after it was read |
| SheetImport.FailedStays | quiz/views.py:408-410 | After the row that raised, no further row changes anything |
| SheetImport.QuestionBank.ImportExcel | quiz/views.py:359-412 | A GET, a missing or non-.xlsx file, or a workbook that does not open writes nothing. Otherwise subjects and questions grow by exactly what the rows write, and the outcome is the count or the error |
| SheetImport.QuestionBank.ImportRows | quiz/views.py:372-403 | The row loop writes exactly the subjects and questions of the rows it reads and returns their count and whether one raised |
| SheetImport.CreatedOptions | quiz/views.py:166-187 | True/false gets the fixed pair 'Đúng' (correct) and 'Sai'; short answer gets no options; choice questions save their submitted options exactly when the formset is valid |
| SheetImport.CreatedTrueFalseGrades | quiz/views.py:166-170 | A created true/false question, once saved, is graded by its literal mapping: a value lowercasing to 'true' earns the point and any other value does not |
| Access.JoinWithCode | quiz/views.py:512-527 | A student joins exactly when a POST carries a code that, stripped and upper-cased, is not empty and belongs to a quiz. Joining adds just that membership; every other outcome changes nothing. An empty code is reported as missing |
| Access.JoinIdempotent | quiz/views.py:522 | Joining again with the same code changes nothing more |
| Access.CanViewTicket | quiz/views.py:1420-1425 | An admin may view every ticket, a teacher only the tickets addressed to them, a student only their own |
| Access.TeacherLockedOutOfOwnAdminTicket | quiz/views.py:1424-1425 | A teacher cannot view a ticket they opened to the administrators |
| Access.CanUpdateStatus | quiz/views.py:1472-1483 | Whoever may change a status may view the ticket; staff may change it exactly when they may view it; students never |
| Access.UpdateStatus | quiz/views.py:1465-1506 | A request that is not a POST is answered with 405 first. Unauthorised POSTs are refused; an authorised POST naming a status raises exactly then, before writing |
| Access.ViewEffect | quiz/views.py:1427-1454 | The owner, teacher, quiz and subject never change. Staff leave the ticket read with its message unchanged. A staff reply records the stripped response, the replying user, the time and the submitted status (the old one when none is sent), and the admin only for an administrator; without a reply only the read flag changes. A non-staff update appends exactly the stamped, stripped text, marks the ticket unread and changes nothing else; without one nothing changes |
| Access.Ticket.Detail | quiz/views.py:1414-1462 | Forbidden exactly when the user may not view the ticket, and then nothing changes. Otherwise the ticket becomes the viewing effect of its old state |
| Access.Ticket.MarkRead | quiz/views.py:1427-1429 | Opening the ticket as staff sets the read flag and changes no other field |
| Access.Ticket.RecordReply | quiz/views.py:1438-1443 | A reply stores the response, the administrator only when one answers, who replied, when, and the new status; no other field changes |
| Access.Ticket.AppendUpdate | quiz/views.py:1449-1452 | An update appends the stamped text to the message and marks the ticket unread; no other field changes |
| Access.ContactTeacher | quiz/views.py:1306-1363 | A non-student is refused first, then a teacher or quiz id that names nothing gets a 404. A ticket is created exactly for a student whose lookups succeed and whose POST has a non-empty stripped subject and message; it is open, unread, unanswered, theirs, and addressed to the given teacher and quiz |
| Access.ContactAdmin | quiz/views.py:1366-1411 | A ticket is created exactly for a POST with a non-empty stripped subject and message; it is open, unread, unanswered, the user's, and addressed to no teacher |
| Access.CreatorCanView | quiz/views.py:1341-1400 | A student may view every ticket they create through either form |
| Access.ChangePassword | quiz/views.py:1230-1263 | A GET changes nothing (the view redirects to the settings page). The current password is checked first, then the confirmation, then the length; two missing new fields crash at the length check. The password changes exactly when all pass, to the new one of at least six characters |
| Access.CorrectRows | quiz/views.py:81-83 | The count is the number of rows whose selected option is in the table and flagged correct, so at most all rows |
| Access.AverageCorrectRateRange | quiz/views.py:85-87 | The rate is a whole number in [0, 100]; it is 100 when every row is correct and 0 when none is |
| Access.ShortAnswerRowsNeverCorrect | quiz/views.py:81-87 | Rows without a selected option never add to the correct count |
| QuizModel.RemoveDashes | quiz/models.py:73 | Removing dashes keeps exactly the characters that are not dashes; text without dashes is unchanged and a lone dash becomes empty |
| QuizModel.RemoveDashesAppend | quiz/models.py:73 | Removing dashes from two joined texts is removing them from each and joining the results |
| QuizModel.CodeFromUuid | quiz/models.py:73 | A generated code has six characters, within the field's eight, all upper-case hex: the UUID's first six characters upper-cased |
| QuizModel.CodeIsNormalized | quiz/views.py:515 | Normalising a code, as joining does, gives the generated code back, also when it is typed in lower case with spaces around |
| QuizModel.AssignedCode | quiz/models.py:72-73 | A save keeps an existing non-empty code and replaces a missing or empty one with a generated one; the code is never empty afterwards |
| QuizModel.QuizRecord.Save | quiz/models.py:70-74 | After a save the quiz has the assigned code, and the write succeeds exactly when no other quiz has that code |
| QuizModel.SaveIsStable | quiz/models.py:72 | A second save keeps the code of the first, whatever UUID it draws |
| QuizModel.TypedCodeJoins | quiz/views.py:515-522 | A student who types a generated code back, in any case and with spaces around it, joins the quiz that has it |
| Decorators.Gate | users/decorators.py:10-14 | The wrapped view runs exactly for an authenticated user with the role, with the same request and the view's own response |
| Decorators.StudentRequired | users/decorators.py:5-15 | The view runs exactly for an authenticated student and returns the view's response; everyone else gets PermissionDenied |
| Decorators.TeacherRequired | users/decorators.py:17-23 | The view runs exactly for an authenticated teacher and returns the view's response; everyone else gets PermissionDenied |
| Decorators.DeniedIgnoresView | users/decorators.py:13-14 | A refused request never reaches the view: the outcome is the same whatever the view |
| Decorators.GatesExclusive | users/decorators.py:11-19 | No user passes both gates, and an administrator passes neither |

## Left out

- Persistence, rendering, messages, redirects and URL routing are left out. Each view becomes its outcome and the rows it writes.
- Concurrency is left out: two submissions racing past the "already submitted" check, and two quizzes drawing the same access code at once.
- `random.shuffle` is replaced by its draws; `uuid.uuid4()` and `timezone.now()` become inputs.
- `check_password` and `set_password` are foreign code. Their verdict is a parameter, and the changed password is returned as plain text.
- Floating point is left out. Scores are exact reals, and `round` rounds ties to even on those exact values, not on binary floats. `float()` of a points field is its outcome, a number or `None` for the ValueError.
- Case mapping covers ASCII letters only. Stripping uses Python's whitespace set. `int()` accepts surrounding whitespace, an optional sign and ASCII digits with single underscores between them; digits from other scripts are not modelled, so `ParseInt` returns none where Python would accept them.
- The workbook reader is left out. A cell is empty, text or a whole number, and a workbook that does not open is the `None` sheet. Float, boolean and date cells are not modelled.
- Dedup: the order in which a Python set yields the selected ids is left out. Only which rows are created is stated, not their order.
- `get_practice_detailed_answers` is left out. It recomputes the same `is_answer_correct` verdicts, which the model counts once.
- `status_history`, the admin comment and the status display in `update_ticket_status` are left out. The status lookup raises before them, so they are unreachable.
- The import of `admin_required` at quiz/views.py:33 is left out. `users/decorators.py` does not define it, so as written the views module fails to import; the model treats each view as if it loaded.
- These are left out: field length limits other than the access code's eight characters, form validation (`QuestionForm`, `AnswerFormSet` validity is an input), the admin site, the listing, history, statistics, settings and profile views, `question_edit`, `api_quick_create_question` and the support inboxes.
- QuizModel.QuizRecord.Save: the uniqueness clash is stated only against the `taken` set of other quizzes' codes, not against a modelled quiz table.
- Access.CorrectRows: the dashboard counts answer rows whose selected option is correct in a given answer table. The filter by the teacher's quizzes is assumed already applied to the rows passed in.
