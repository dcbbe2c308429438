/**
 * The registrations collection behind backend/app/routers/events.py, and the routes
 * that change it run step by step: `register_for_event` inserts at most one record,
 * `mark_event_attendance` updates at most one. `download_attendance_report` builds its
 * header and rows with append loops.
 */
module EventStore {
  import opened Wrappers
  import opened Text
  import opened Access
  import opened Departments
  import opened Registrations

  /** The loop body of the answer check for one field: blank keys are skipped. */
  method CheckField(f: FormField, answers: map<string, string>) returns (err: Option<string>)
    ensures err == FieldError(f, answers)
  {
    var key := Strip(f.key.GetOr(""));
    if key == [] {
      return None;
    }
    var required := f.required.GetOr(true);
    var ftype := OrElse(f.kind, "text");
    var caption := OrElse(f.caption, key);
    var val := if key in answers then Strip(answers[key]) else "";
    if required && val == [] {
      return Some("Missing required field: " + caption);
    }
    if val != [] && ftype == "select" && val !in StripAll(f.options) {
      return Some("Invalid value for " + caption + ".");
    }
    return None;
  }

  /** The answer loop of `register_for_event`: stops at the first field that reports an error. */
  method CheckAnswers(fields: seq<FormField>, answers: map<string, string>) returns (err: Option<string>)
    ensures err == AnswersError(fields, answers)
  {
    for i := 0 to |fields|
      invariant AnswersError(fields, answers) == AnswersErrorFrom(fields, answers, i)
    {
      var e := CheckField(fields[i], answers);
      if e.Some? {
        return e;
      }
    }
    return None;
  }

  /**
   * The identifier block of `mark_event_attendance`: the trimmed identifier, replaced by
   * the email a profile lookup or an answer lookup finds when it has no '@'.
   */
  method ResolveIdentifier(identifier: string, byRoll: Option<string>, byAnswer: Option<string>)
    returns (r: Result<string, string>)
    ensures r == ResolveStudent(identifier, byRoll, byAnswer)
  {
    var email := Strip(identifier);
    if '@' !in email {
      if byRoll.Some? {
        email := byRoll.value;
      } else if byAnswer.Some? {
        email := byAnswer.value;
      } else {
        return Err("Student with identifier " + email + " not found in profiles or registrations.");
      }
    }
    return Ok(email);
  }

  /** The `event_registrations` collection, as the sequence of its documents. */
  class EventRegistrations {
    var regs: seq<Registration>

    /** At most one registration per (event, student). */
    predicate Valid()
      reads this
    {
      Unique(regs)
    }

    constructor()
      ensures regs == [] && Valid()
    {
      regs := [];
    }

    /** `register_for_event`, with the repositories' answers as parameters. */
    method Register(req: RegisterRequest, event: Option<EventDoc>, student: Option<StudentProfile>,
                    idValid: bool, createOk: bool, now: Instant) returns (resp: Response)
      requires Valid()
      modifies this
      ensures Valid()
      ensures (regs, resp) == RegisterOutcome(old(regs), req, event, student, idValid, createOk, now)
    {
      if !IsAllowedDomain(req.studentEmail) {
        return Response(false, DomainRejected);
      }
      if req.studentRole != "student" {
        return Response(false, "studentRole must be student.");
      }
      if event.None? {
        return Response(false, "Event not found.");
      }
      if student.None? {
        return Response(false, "Student not found.");
      }
      var dept := Strip(student.value.department.GetOr(""));
      var allowedLower := event.value.allowedDepartmentsLower;
      if allowedLower != [] && Lower(dept) !in LowerAll(allowedLower) {
        return Response(false, "This event is not visible for your department.");
      }
      var answers := req.answers.GetOr(map[]);
      var err := CheckAnswers(event.value.formFields, answers);
      if err.Some? {
        return Response(false, err.value);
      }
      if !idValid {
        return Response(false, "Invalid event id.");
      }
      if FindRegistration(regs, req.eventId, req.studentEmail).Some? {
        return Response(false, AlreadyRegistered);
      }
      if !createOk {
        return Response(false, "Registration failed.");
      }
      RegisterKeepsUnique(regs, req, event, student, idValid, createOk, now);
      regs := regs + [Registration(req.eventId, req.studentEmail, dept, answers, false, now, None)];
      return Response(true, "Registered successfully.");
    }

    /** `mark_event_attendance`, with the repositories' answers as parameters. */
    method MarkAttendance(req: AttendanceRequest, event: Option<EventDoc>, idValid: bool,
                          byRoll: Option<string>, byAnswer: Option<string>, writeOk: bool, stamp: Option<Instant>)
      returns (resp: Response)
      requires Valid()
      modifies this
      ensures Valid()
      ensures (regs, resp) == AttendanceOutcome(old(regs), req, event, idValid, byRoll, byAnswer, writeOk, stamp)
    {
      var check := AttendanceCheck(req, event, idValid);
      if check.Some? {
        return Response(false, check.value);
      }
      var target := ResolveIdentifier(req.studentIdentifier, byRoll, byAnswer);
      if target.Err? {
        return Response(false, target.error);
      }
      var email := target.value;
      var k := FindRegistration(regs, req.eventId, email);
      if k.None? {
        return Response(false, "Student " + email + " is not registered for this event.");
      }
      OutcomeIsToggle(regs, req, event, idValid, byRoll, byAnswer, writeOk, stamp, email, k.value);
      AttendanceKeepsUnique(regs, req, event, idValid, byRoll, byAnswer, writeOk, stamp);
      resp := ToggleAt(k.value, req.status, email, writeOk, stamp);
    }

    /**
     * The check-then-write on the stored flag: nothing is written when it already has
     * the requested value; otherwise the write, when it succeeds, sets flag and stamp.
     */
    method ToggleAt(k: nat, status: bool, email: string, writeOk: bool, stamp: Option<Instant>) returns (resp: Response)
      requires k < |regs|
      modifies this
      ensures (regs, resp) == Toggle(old(regs), k, status, email, writeOk, stamp)
    {
      var current := regs[k].isPresent;
      if current == status {
        return Response(true, "Attendance is already marked as " + PresentWord(current) + " for " + email + ".");
      }
      if !writeOk {
        return Response(false, "Failed to update attendance.");
      }
      regs := regs[k := regs[k].(isPresent := status, attendedAt := stamp)];
      return Response(true, "Attendance marked as " + PresentWord(status) + " for " + email + ".");
    }
  }

  // ----- download_attendance_report --------------------------------------------------------

  const ReportColumns: seq<string> := ["Student Email", "Department", "Registration Date", "Attended", "Attended At"]

  /** `f.get("label") or f.get("key")`, a missing value written as the empty cell. */
  function ColumnLabel(f: FormField): string {
    OrElse(f.caption, f.key.GetOr(""))
  }

  /** `answers.get(k, "")` for the field's raw key. */
  function AnswerCell(answers: map<string, string>, key: Option<string>): string {
    if key.Some? && key.value in answers then answers[key.value] else ""
  }

  function YesNo(b: bool): string {
    if b then "YES" else "NO"
  }

  /** The header row: the five fixed columns, then one column per form field. */
  function ReportHeader(fields: seq<FormField>): seq<string> {
    ReportColumns + seq(|fields|, i requires 0 <= i < |fields| => ColumnLabel(fields[i]))
  }

  /**
   * One registration's row: email, department, registration time and attendance time
   * (rendered by `iso`; an unset attendance time is empty), "YES"/"NO", then its answer
   * to each form field.
   */
  function ReportRow(r: Registration, fields: seq<FormField>, iso: Instant -> string): seq<string> {
    [r.studentEmail, r.department, iso(r.createdAt), YesNo(r.isPresent),
     if r.attendedAt.Some? then iso(r.attendedAt.value) else ""]
    + seq(|fields|, i requires 0 <= i < |fields| => AnswerCell(r.answers, fields[i].key))
  }

  /** The row loop body: the five fixed cells, then the answers appended field by field. */
  method BuildRow(r: Registration, fields: seq<FormField>, iso: Instant -> string) returns (row: seq<string>)
    ensures row == ReportRow(r, fields, iso)
    ensures |row| == |ReportColumns| + |fields| && (row[3] == "YES" <==> r.isPresent)
  {
    row := [r.studentEmail, r.department, iso(r.createdAt), YesNo(r.isPresent),
            if r.attendedAt.Some? then iso(r.attendedAt.value) else ""];
    for j := 0 to |fields|
      invariant row == ReportRow(r, fields[..j], iso)
    {
      row := row + [AnswerCell(r.answers, fields[j].key)];
      assert fields[..j + 1][..j] == fields[..j];
    }
    assert fields[..|fields|] == fields;
  }

  /**
   * The header and row loops of `download_attendance_report` over the registrations
   * the repository returns for the event: one row per registration, each as wide as the
   * header, with "YES" exactly for those marked present.
   */
  method AttendanceReport(fields: seq<FormField>, regs: seq<Registration>, iso: Instant -> string)
    returns (header: seq<string>, rows: seq<seq<string>>)
    ensures header == ReportHeader(fields)
    ensures |rows| == |regs| && forall i :: 0 <= i < |regs| ==> rows[i] == ReportRow(regs[i], fields, iso)
    ensures forall i :: 0 <= i < |rows| ==> |rows[i]| == |header| && (rows[i][3] == "YES" <==> regs[i].isPresent)
  {
    header := ReportColumns;
    for j := 0 to |fields|
      invariant header == ReportHeader(fields[..j])
    {
      header := header + [ColumnLabel(fields[j])];
      assert fields[..j + 1][..j] == fields[..j];
    }
    assert fields[..|fields|] == fields;
    rows := [];
    for i := 0 to |regs|
      invariant |rows| == i
      invariant forall m :: 0 <= m < i ==> rows[m] == ReportRow(regs[m], fields, iso)
      invariant forall m :: 0 <= m < i ==> |rows[m]| == |ReportColumns| + |fields| && (rows[m][3] == "YES" <==> regs[m].isPresent)
    {
      var row := BuildRow(regs[i], fields, iso);
      rows := rows + [row];
    }
  }

  /**
   * `download_attendance_report`: a role check (no domain check), the event and owner
   * checks and the id check, then the table.
   */
  method DownloadAttendanceReport(email: string, role: string, event: Option<EventDoc>, idValid: bool,
                                  regs: seq<Registration>, iso: Instant -> string)
    returns (r: Result<(seq<string>, seq<seq<string>>), string>)
    ensures role != "event_manager" ==> r == Err("Role must be event_manager.")
    ensures r.Ok? <==> role == "event_manager" && event.Some? && SameUser(event.value.managerEmail, email) && idValid
    ensures r.Ok? ==> r.value.0 == ReportHeader(event.value.formFields) && |r.value.1| == |regs|
    ensures r.Ok? ==> forall i :: 0 <= i < |regs| ==> r.value.1[i] == ReportRow(regs[i], event.value.formFields, iso)
  {
    if role != "event_manager" {
      return Err("Role must be event_manager.");
    }
    if event.None? {
      return Err("Event not found.");
    }
    if !SameUser(event.value.managerEmail, email) {
      return Err("Not allowed.");
    }
    if !idValid {
      return Err("Invalid event id.");
    }
    var header, rows := AttendanceReport(event.value.formFields, regs, iso);
    return Ok((header, rows));
  }
}
