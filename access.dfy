/** The small access and validation rules of quiz/views.py: joining a
    private quiz by its code, the support-ticket permissions and read/unread
    flag, new tickets, the password-change checks and the teacher
    dashboard's correct-answer rate. */
module Access {
  import opened Base
  import opened Catalog
  import opened Grading
  import opened Gradebook

  // ---------------------------------------------------------------------
  // join_with_code (quiz/views.py:511-524)
  // ---------------------------------------------------------------------

  /** The code as the view compares it: `.strip().upper()`. */
  function NormalizeCode(s: string): string {
    Upper(Strip(s))
  }

  /** The membership rows of `Quiz.allowed_students`: (quiz, student). */
  type Enrolment = set<(int, int)>

  datatype JoinOutcome = JoinNotPost | MissingCode | UnknownCode | Joined(quiz: int)

  /** `join_with_code`. `codes` is the unique `access_code` column, from code
      to quiz. A missing field reads as the empty code. The student joins
      exactly when the normalised code names a quiz; then the membership
      (quiz, student) is added and nothing else changes, and otherwise
      nothing changes at all. */
  function JoinWithCode(isPost: bool, posted: Option<string>, student: int, codes: map<string, int>, allowed: Enrolment)
    : (r: (JoinOutcome, Enrolment))
    ensures var code := NormalizeCode(if posted.Some? then posted.value else "");
      && (r.0.Joined? <==> isPost && code != [] && code in codes)
      && (r.0.Joined? ==> r.0.quiz == codes[code] && r.1 == allowed + {(r.0.quiz, student)})
      && (!r.0.Joined? ==> r.1 == allowed)
      && (isPost && code == [] ==> r.0 == MissingCode)
  {
    if !isPost then (JoinNotPost, allowed)
    else
      var code := NormalizeCode(match posted case None => "" case Some(v) => v);
      if code == [] then (MissingCode, allowed)
      else if code !in codes then (UnknownCode, allowed)
      else (Joined(codes[code]), allowed + {(codes[code], student)})
  }

  /** Joining again with the same code changes nothing more: the membership
      is a set. */
  lemma {:induction false} JoinIdempotent(posted: Option<string>, student: int, codes: map<string, int>, allowed: Enrolment)
    ensures var once := JoinWithCode(true, posted, student, codes, allowed);
      JoinWithCode(true, posted, student, codes, once.1) == once
  {
    var once := JoinWithCode(true, posted, student, codes, allowed);
    if once.0.Joined? {
      var pair := (once.0.quiz, student);
      assert once.1 + {pair} == once.1 by {
        assert pair in once.1;
      }
    }
  }

  // ---------------------------------------------------------------------
  // Support tickets (quiz/views.py:1305-1508, support/models.py)
  // ---------------------------------------------------------------------

  const Open: string := "OPEN"

  /** One `SupportTicket` row, in the fields the views read and write. */
  datatype TicketRow = TicketRow(
    owner: int,
    teacher: Option<int>,
    quiz: Option<int>,
    ticketType: string,
    subject: string,
    message: string,
    status: string,
    isRead: bool,
    adminResponse: Option<string>,
    admin: Option<int>,
    repliedBy: Option<int>,
    repliedAt: Option<int>)

  predicate IsStaff(r: Role) {
    r == Teacher || r == Admin
  }

  /** The two permission checks of `support_ticket_detail`: not the owner
      and not staff, or a teacher the ticket is not addressed to, is
      refused. Role by role: an admin may always view, a teacher only the
      tickets addressed to them, a student only their own. */
  function CanViewTicket(t: TicketRow, u: User): (r: bool)
    ensures u.role == Admin ==> r
    ensures u.role == Teacher ==> (r <==> t.teacher == Some(u.id))
    ensures u.role == Student ==> (r <==> t.owner == u.id)
  {
    && !(t.owner != u.id && !IsStaff(u.role))
    && !(u.role == Teacher && t.teacher != Some(u.id))
  }

  /** A teacher who opened a ticket to the administrators (no teacher
      assigned) cannot view it: the teacher check ignores ownership, though
      `contact_admin` accepts any signed-in user and redirects to the
      ticket's page. */
  lemma TeacherLockedOutOfOwnAdminTicket(t: TicketRow, u: User)
    requires u.role == Teacher && t.owner == u.id && t.teacher.None?
    ensures !CanViewTicket(t, u)
  {
  }

  /** The check of `update_ticket_status`: an admin, or the teacher the
      ticket is addressed to. Whoever may change the status may view the
      ticket; staff may change it exactly when they may view it; a student
      never may, not even on their own ticket. */
  function CanUpdateStatus(t: TicketRow, u: User): (r: bool)
    ensures r ==> CanViewTicket(t, u)
    ensures IsStaff(u.role) ==> (r <==> CanViewTicket(t, u))
    ensures u.role == Student ==> !r
  {
    u.role == Admin || (u.role == Teacher && t.teacher == Some(u.id))
  }

  /** How `update_ticket_status` ends. The view only accepts POST (a GET
      is answered with 405 before anything else). The status list it checks
      against, `SupportTicket.STATUS_CHOICES`, does not exist on the model,
      so an authorised request that names a status raises AttributeError
      before anything is written. No request therefore reaches a status
      change. */
  datatype StatusOutcome = StatusNotPost | NotAuthorized | InvalidStatus | StatusCrash

  function UpdateStatus(t: TicketRow, u: User, isPost: bool, newStatus: Option<string>): (r: StatusOutcome)
    ensures r == StatusNotPost <==> !isPost
    ensures r == NotAuthorized <==> isPost && !CanUpdateStatus(t, u)
    ensures r == StatusCrash <==> isPost && CanUpdateStatus(t, u) && newStatus.Some? && newStatus.value != []
  {
    if !isPost then StatusNotPost
    else if !CanUpdateStatus(t, u) then NotAuthorized
    else if newStatus.None? || newStatus.value == [] then InvalidStatus
    else StatusCrash
  }

  /** The text the view appends to the message when the owner adds to it;
      `stamp` is the formatted current time. */
  function StudentUpdate(stamp: string, text: string): string {
    "\n\n--- C\U{1EAD}p nh\U{1EAD}t t\U{1EEB} h\U{1ECD}c sinh (" + stamp + ") ---\n" + text
  }

  /** What `support_ticket_detail` does to a ticket a user may view: staff
      mark it read; on a POST, staff with a non-empty response record the
      reply and the submitted status (the current one when none is
      submitted), and anyone else with a non-empty update appends it and
      marks the ticket unread. After staff look at a ticket it is read and
      its message unchanged, and only their reply changes its status; a
      non-staff viewer never marks it read, and without a posted update
      changes nothing. No view changes whose ticket it is. */
  function ViewEffect(t: TicketRow, u: User, isPost: bool, response: Option<string>,
                      status: Option<string>, update: Option<string>, now: int, stamp: string): (r: TicketRow)
    ensures r.owner == t.owner && r.teacher == t.teacher && r.quiz == t.quiz && r.subject == t.subject
    ensures IsStaff(u.role) ==> r.isRead && r.message == t.message
    ensures IsStaff(u.role) && r.status != t.status ==> isPost && status.Some? && r.repliedBy == Some(u.id)
    ensures IsStaff(u.role) ==>
      var reply := Strip(if response.Some? then response.value else "");
      && (isPost && reply != [] ==>
            r == t.(isRead := true,
                    adminResponse := Some(reply),
                    admin := if u.role == Admin then Some(u.id) else None,
                    repliedBy := Some(u.id),
                    repliedAt := Some(now),
                    status := if status.Some? then status.value else t.status))
      && (!(isPost && reply != []) ==> r == t.(isRead := true))
    ensures !IsStaff(u.role) ==>
      var text := Strip(if update.Some? then update.value else "");
      && (isPost && text != [] ==>
            && r == t.(message := t.message + StudentUpdate(stamp, text), isRead := false)
            && t.message < r.message)
      && (!(isPost && text != []) ==> r == t)
  {
    var seen := if IsStaff(u.role) && !t.isRead then t.(isRead := true) else t;
    if !isPost then seen
    else if IsStaff(u.role) then
      var reply := Strip(if response.Some? then response.value else "");
      if reply == [] then seen
      else seen.(
        adminResponse := Some(reply),
        admin := if u.role == Admin then Some(u.id) else None,
        repliedBy := Some(u.id),
        repliedAt := Some(now),
        status := if status.Some? then status.value else seen.status)
    else
      var text := Strip(if update.Some? then update.value else "");
      if text == [] then seen
      else seen.(message := seen.message + StudentUpdate(stamp, text), isRead := false)
  }

  datatype DetailOutcome = TicketForbidden | TicketShown

  /** A support ticket, viewed and answered in place. Whose ticket it is,
      whom and what it is about never change after creation. */
  class Ticket {
    const owner: int
    const teacher: Option<int>
    const quiz: Option<int>
    const ticketType: string
    const subject: string
    var message: string
    var status: string
    var isRead: bool
    var adminResponse: Option<string>
    var admin: Option<int>
    var repliedBy: Option<int>
    var repliedAt: Option<int>

    /** The ticket's current fields as a row. */
    function Row(): TicketRow
      reads this
    {
      TicketRow(owner, teacher, quiz, ticketType, subject, message, status, isRead,
                adminResponse, admin, repliedBy, repliedAt)
    }

    constructor (r: TicketRow)
      ensures Row() == r
    {
      owner, teacher, quiz, ticketType, subject := r.owner, r.teacher, r.quiz, r.ticketType, r.subject;
      message, status, isRead := r.message, r.status, r.isRead;
      adminResponse, admin, repliedBy, repliedAt := r.adminResponse, r.admin, r.repliedBy, r.repliedAt;
    }

    /** Staff opening the ticket: it is marked read. */
    method MarkRead()
      modifies this
      ensures Row() == old(Row()).(isRead := true)
    {
      isRead := true;
    }

    /** A staff reply: the response, who answered (and the administrator,
        when it is one), when, and the new status are recorded. */
    method RecordReply(u: User, reply: string, newStatus: string, now: int)
      modifies this
      ensures Row() == old(Row()).(adminResponse := Some(reply),
                                   admin := if u.role == Admin then Some(u.id) else None,
                                   repliedBy := Some(u.id),
                                   repliedAt := Some(now),
                                   status := newStatus)
    {
      adminResponse := Some(reply);
      admin := if u.role == Admin then Some(u.id) else None;
      repliedBy := Some(u.id);
      repliedAt := Some(now);
      status := newStatus;
    }

    /** A non-staff update: the stamped text is appended to the message and
        the ticket becomes unread. */
    method AppendUpdate(stamp: string, text: string)
      modifies this
      ensures Row() == old(Row()).(message := old(message) + StudentUpdate(stamp, text), isRead := false)
    {
      message := message + StudentUpdate(stamp, text);
      isRead := false;
    }

    /** `support_ticket_detail` for a signed-in user: PermissionDenied
        changes nothing; otherwise staff mark the ticket read, then a
        posted reply or update is written into its fields. */
    method Detail(u: User, isPost: bool, response: Option<string>, postedStatus: Option<string>,
                  update: Option<string>, now: int, stamp: string) returns (out: DetailOutcome)
      modifies this
      ensures out == TicketForbidden <==> !CanViewTicket(old(Row()), u)
      ensures out == TicketForbidden ==> Row() == old(Row())
      ensures out == TicketShown ==> Row() == ViewEffect(old(Row()), u, isPost, response, postedStatus, update, now, stamp)
    {
      if owner != u.id && !IsStaff(u.role) {
        return TicketForbidden;
      }
      if u.role == Teacher && teacher != Some(u.id) {
        return TicketForbidden;
      }
      if IsStaff(u.role) && !isRead {
        MarkRead();
      }
      if isPost {
        if IsStaff(u.role) {
          var reply := Strip(if response.Some? then response.value else "");
          if reply != [] {
            RecordReply(u, reply, if postedStatus.Some? then postedStatus.value else status, now);
          }
        } else {
          var text := Strip(if update.Some? then update.value else "");
          if text != [] {
            AppendUpdate(stamp, text);
          }
        }
      }
      return TicketShown;
    }
  }

  /** How the two ticket forms end: refused (only students may write to a
      teacher), a 404 for the teacher or quiz named in the address, the form
      again, a missing subject or message, or the new ticket. */
  datatype CreateOutcome = NotStudent | TargetNotFound | TicketForm | Incomplete | Created(ticket: TicketRow)

  /** The row both forms create: open, unread, unanswered. */
  function NewTicket(owner: int, teacher: Option<int>, quiz: Option<int>, ticketType: string,
                     subject: string, message: string): TicketRow
  {
    TicketRow(owner, teacher, quiz, ticketType, subject, message, Open, false, None, None, None, None)
  }

  /** `contact_teacher` (quiz/views.py:1305-1364). `found` says whether the
      lookups of the address succeed: a `teacher_id` that names a teacher
      and a `quiz_id` that names a quiz (false is the 404). `teacher` is
      the chosen teacher, or the quiz's author when a quiz is given. Only
      students get past the first check, and the lookups come before
      anything else is read. A ticket is created exactly for a student
      whose lookups succeed and who posts a non-empty subject and message
      (both stripped), and it is open, unread and unanswered. */
  function ContactTeacher(u: User, found: bool, teacher: Option<int>, quiz: Option<int>, isPost: bool,
                          subject: Option<string>, message: Option<string>, ticketType: Option<string>)
    : (r: CreateOutcome)
    ensures u.role != Student ==> r == NotStudent
    ensures u.role == Student && !found ==> r == TargetNotFound
    ensures var s := Strip(if subject.Some? then subject.value else "");
      var m := Strip(if message.Some? then message.value else "");
      && (r.Created? <==> u.role == Student && found && isPost && s != [] && m != [])
      && (r.Created? ==> Fresh(r.ticket, u, s, m) && r.ticket.teacher == teacher && r.ticket.quiz == quiz)
  {
    if u.role != Student then NotStudent
    else if !found then TargetNotFound
    else if !isPost then TicketForm
    else
      var s := Strip(if subject.Some? then subject.value else "");
      var m := Strip(if message.Some? then message.value else "");
      if s == [] || m == [] then Incomplete
      else Created(NewTicket(u.id, teacher, quiz, if ticketType.Some? then ticketType.value else "QUESTION", s, m))
  }

  /** `contact_admin` (quiz/views.py:1366-1410): any signed-in user, no
      teacher; the same rules for subject and message, and the same fresh
      open ticket. */
  function ContactAdmin(u: User, isPost: bool, subject: Option<string>, message: Option<string>,
                        ticketType: Option<string>): (r: CreateOutcome)
    ensures var s := Strip(if subject.Some? then subject.value else "");
      var m := Strip(if message.Some? then message.value else "");
      && (r.Created? <==> isPost && s != [] && m != [])
      && (r.Created? ==> Fresh(r.ticket, u, s, m) && r.ticket.teacher.None?)
  {
    if !isPost then TicketForm
    else
      var s := Strip(if subject.Some? then subject.value else "");
      var m := Strip(if message.Some? then message.value else "");
      if s == [] || m == [] then Incomplete
      else Created(NewTicket(u.id, None, None, if ticketType.Some? then ticketType.value else "OTHER", s, m))
  }

  /** A ticket as created: open, unread, unanswered, by `u`, with subject
      `s` and message `m`. */
  predicate Fresh(t: TicketRow, u: User, s: string, m: string) {
    && t.status == Open && !t.isRead
    && t.adminResponse.None? && t.admin.None? && t.repliedBy.None? && t.repliedAt.None?
    && t.owner == u.id && t.subject == s && t.message == m
  }

  /** A student always may view the ticket they created. */
  lemma CreatorCanView(u: User, found: bool, teacher: Option<int>, quiz: Option<int>, isPost: bool,
                       subject: Option<string>, message: Option<string>, ticketType: Option<string>)
    ensures var b := ContactTeacher(u, found, teacher, quiz, isPost, subject, message, ticketType);
      b.Created? ==> CanViewTicket(b.ticket, u)
    ensures var a := ContactAdmin(u, isPost, subject, message, ticketType);
      a.Created? && u.role == Student ==> CanViewTicket(a.ticket, u)
  {
  }

  // ---------------------------------------------------------------------
  // change_password (quiz/views.py:1229-1261)
  // ---------------------------------------------------------------------

  /** How the view ends. `PasswordCrash` is `len(None)`: a POST without a
      new password and without a confirmation passes the equality check
      and fails on the length. */
  datatype PasswordOutcome = PasswordNotPost | WrongCurrent | Mismatch | TooShort | PasswordCrash | Changed(password: string)

  /** `change_password`. `currentOk` is what `check_password` says of the
      submitted current password (false for a missing one). The checks come
      in order: the current password first, then the confirmation, then
      the length; the password changes exactly when all pass, to the new
      one, which then has at least six characters. Two missing fields are
      equal, so they reach the length check and crash there. */
  function ChangePassword(isPost: bool, currentOk: bool, newPassword: Option<string>, confirm: Option<string>)
    : (r: PasswordOutcome)
    ensures isPost && !currentOk ==> r == WrongCurrent
    ensures isPost && currentOk && newPassword != confirm ==> r == Mismatch
    ensures r.Changed? <==> isPost && currentOk && newPassword == confirm && newPassword.Some? && |newPassword.value| >= 6
    ensures r.Changed? ==> Some(r.password) == newPassword && |r.password| >= 6
    ensures !isPost ==> r == PasswordNotPost
    ensures r == PasswordCrash <==> isPost && currentOk && newPassword == confirm && newPassword.None?
    ensures r == TooShort <==>
      isPost && currentOk && newPassword == confirm && newPassword.Some? && |newPassword.value| < 6
  {
    if !isPost then PasswordNotPost
    else if !currentOk then WrongCurrent
    else if newPassword != confirm then Mismatch
    else if newPassword.None? then PasswordCrash
    else if |newPassword.value| < 6 then TooShort
    else Changed(newPassword.value)
  }

  // ---------------------------------------------------------------------
  // teacher_dashboard correct-answer rate (quiz/views.py:81-87)
  // ---------------------------------------------------------------------

  /** `selected_answer__is_correct=True`: the row's selected option exists
      and is flagged correct. */
  predicate RowCorrect(row: StudentAnswerRow, table: AnswerTable) {
    row.selected.Some? && row.selected.value in table && table[row.selected.value].isCorrect
  }

  /** The number of answer rows whose selected option is correct. */
  function CorrectRows(rows: seq<StudentAnswerRow>, table: AnswerTable): (n: nat)
    ensures n == |set i | 0 <= i < |rows| && RowCorrect(rows[i], table)|
    ensures n <= |rows|
  {
    if rows == [] then 0
    else
      var init := rows[..|rows| - 1];
      var last := |rows| - 1;
      var correct := r => RowCorrect(r, table);
      CountLast(rows, correct);
      assert Positions(rows, correct) == set i | 0 <= i < |rows| && RowCorrect(rows[i], table);
      assert Positions(init, correct) == set i | 0 <= i < |init| && RowCorrect(init[i], table);
      CorrectRows(init, table) + (if RowCorrect(rows[last], table) then 1 else 0)
  }

  /** `round(correct / total * 100)`, 0 with no rows. Short-answer rows
      count among the rows but never as correct. */
  function AverageCorrectRate(rows: seq<StudentAnswerRow>, table: AnswerTable): (r: int)
  {
    if |rows| == 0 then 0
    else RoundHalfEven(Percentage(CorrectRows(rows, table), |rows|))
  }

  /** The rate is a whole percentage from 0 to 100; it is 100 when every
      row is correct and 0 when none is. */
  lemma AverageCorrectRateRange(rows: seq<StudentAnswerRow>, table: AnswerTable)
    ensures 0 <= AverageCorrectRate(rows, table) <= 100
    ensures rows != [] && CorrectRows(rows, table) == |rows| ==> AverageCorrectRate(rows, table) == 100
    ensures CorrectRows(rows, table) == 0 ==> AverageCorrectRate(rows, table) == 0
  {
    if rows != [] {
      var c, t := CorrectRows(rows, table), |rows|;
      var x := Percentage(c, t);
      RatioAtMostOne(c, t);
      assert 0.0 <= x <= 100.0;
      RoundHalfEvenMonotone(0.0, x);
      RoundHalfEvenMonotone(x, 100.0);
      RoundHalfEvenOfInt(0);
      RoundHalfEvenOfInt(100);
      if c == t {
        DivSelf(t as real);
      }
      if c == 0 {
        assert c as real / t as real == 0.0;
      }
    }
  }

  /** Rows that only add a short answer lower the rate or leave it. */
  lemma {:induction false} ShortAnswerRowsNeverCorrect(rows: seq<StudentAnswerRow>, extra: seq<StudentAnswerRow>, table: AnswerTable)
    requires forall k :: 0 <= k < |extra| ==> extra[k].selected.None?
    ensures CorrectRows(rows + extra, table) == CorrectRows(rows, table)
    decreases |extra|
  {
    if extra == [] {
      assert rows + extra == rows;
    } else {
      var init := extra[..|extra| - 1];
      assert (rows + extra)[..|rows + extra| - 1] == rows + init;
      ShortAnswerRowsNeverCorrect(rows, init, table);
    }
  }
}
