/**
 * backend/app/routers/events.py once an event exists: the answer checks and the
 * department gate of `register_for_event`, the one-registration-per-student rule,
 * and the identifier lookup and idempotent toggle of `mark_event_attendance`. Each
 * route is stated here as a function from the stored registrations (and what the
 * repositories answer) to the new registrations and the response; the class in
 * EventStore runs the routes step by step against these functions.
 */
module Registrations {
  import opened Wrappers
  import opened Text
  import opened Access
  import opened Departments

  const DomainRejected: string := "Only @kongu.edu or @kongu.ac.in emails are permitted."
  const AlreadyRegistered: string := "You already registered for this event."

  /** `x or default` for an optional string: a missing or empty value falls back to `default`. */
  function OrElse(x: Option<string>, default: string): string {
    if x.Some? && x.value != [] then x.value else default
  }

  // ----- answer validation ----------------------------------------------------------

  /** A form field as the event document stores it; `required` is `None` when the key is absent. */
  datatype FormField = FormField(
    key: Option<string>,
    kind: Option<string>,
    caption: Option<string>,
    options: seq<string>,
    required: Option<bool>)

  /** `str(f.get("key") or "").strip()`. */
  function FieldKey(f: FormField): string {
    Strip(f.key.GetOr(""))
  }

  /** `str(f.get("label") or key)`: the caption the error messages name. */
  function FieldLabel(f: FormField): string {
    OrElse(f.caption, FieldKey(f))
  }

  /** `str(f.get("type") or "text")`. */
  function FieldKind(f: FormField): string {
    OrElse(f.kind, "text")
  }

  /** `str(answers.get(key, "")).strip() if key in answers else ""`. */
  function AnswerValue(answers: map<string, string>, key: string): string {
    if key in answers then Strip(answers[key]) else ""
  }

  /** `[str(o).strip() for o in opts]`. */
  function StripAll(xs: seq<string>): (r: seq<string>)
    ensures |r| == |xs| && forall i :: 0 <= i < |xs| ==> r[i] == Strip(xs[i])
  {
    seq(|xs|, i requires 0 <= i < |xs| => Strip(xs[i]))
  }

  /**
   * What one field demands of the answers: nothing when its key is blank; an answer
   * when it is required (the default); and, for a select field answered at all, an
   * answer equal to one of its options once both are trimmed.
   */
  predicate AnswerAcceptable(f: FormField, answers: map<string, string>) {
    var val := AnswerValue(answers, FieldKey(f));
    FieldKey(f) != [] ==>
      && (f.required.GetOr(true) ==> val != [])
      && (val != [] && FieldKind(f) == "select" ==> exists i :: 0 <= i < |f.options| && Strip(f.options[i]) == val)
  }

  /** The error the loop body of `register_for_event` reports for one field, if any. */
  function FieldError(f: FormField, answers: map<string, string>): (r: Option<string>)
    ensures r.None? <==> AnswerAcceptable(f, answers)
    ensures r.Some? ==>
      r.value == "Missing required field: " + FieldLabel(f) || r.value == "Invalid value for " + FieldLabel(f) + "."
  {
    var key := FieldKey(f);
    if key == [] then None
    else
      var val := AnswerValue(answers, key);
      if f.required.GetOr(true) && val == [] then Some("Missing required field: " + FieldLabel(f))
      else if val != [] && FieldKind(f) == "select" && val !in StripAll(f.options) then
        Some("Invalid value for " + FieldLabel(f) + ".")
      else
        assert val in StripAll(f.options) ==> exists i :: 0 <= i < |f.options| && Strip(f.options[i]) == val;
        None
  }

  /** The first field error from index `i` on, in field order. */
  function AnswersErrorFrom(fields: seq<FormField>, answers: map<string, string>, i: nat): Option<string>
    requires i <= |fields|
    decreases |fields| - i
  {
    if i == |fields| then None
    else if FieldError(fields[i], answers).Some? then FieldError(fields[i], answers)
    else AnswersErrorFrom(fields, answers, i + 1)
  }

  /** The message of the first field whose check fails, if any. */
  function AnswersError(fields: seq<FormField>, answers: map<string, string>): Option<string> {
    AnswersErrorFrom(fields, answers, 0)
  }

  lemma {:induction false} AnswersErrorFromIff(fields: seq<FormField>, answers: map<string, string>, i: nat)
    requires i <= |fields|
    ensures AnswersErrorFrom(fields, answers, i).None? <==>
      forall j :: i <= j < |fields| ==> FieldError(fields[j], answers).None?
    ensures AnswersErrorFrom(fields, answers, i).Some? ==>
      exists j :: i <= j < |fields| && AnswersErrorFrom(fields, answers, i) == FieldError(fields[j], answers)
        && forall m :: i <= m < j ==> FieldError(fields[m], answers).None?
    decreases |fields| - i
  {
    if i < |fields| && FieldError(fields[i], answers).None? {
      AnswersErrorFromIff(fields, answers, i + 1);
      if AnswersErrorFrom(fields, answers, i + 1).Some? {
        var j :| i + 1 <= j < |fields| && AnswersErrorFrom(fields, answers, i + 1) == FieldError(fields[j], answers)
          && forall m :: i + 1 <= m < j ==> FieldError(fields[m], answers).None?;
        assert forall m :: i <= m < j ==> FieldError(fields[m], answers).None?;
      }
    }
  }

  /**
   * The answers pass exactly when every field accepts them; otherwise the error is that
   * of the first field that does not.
   */
  lemma AnswersErrorIff(fields: seq<FormField>, answers: map<string, string>)
    ensures AnswersError(fields, answers).None? <==> forall i :: 0 <= i < |fields| ==> AnswerAcceptable(fields[i], answers)
    ensures AnswersError(fields, answers).Some? ==>
      exists i :: 0 <= i < |fields| && AnswersError(fields, answers) == FieldError(fields[i], answers)
        && forall j :: 0 <= j < i ==> AnswerAcceptable(fields[j], answers)
  {
    AnswersErrorFromIff(fields, answers, 0);
    if AnswersError(fields, answers).Some? {
      var i :| 0 <= i < |fields| && AnswersError(fields, answers) == FieldError(fields[i], answers)
        && forall j :: 0 <= j < i ==> FieldError(fields[j], answers).None?;
      assert forall j :: 0 <= j < i ==> AnswerAcceptable(fields[j], answers);
    }
  }

  // ----- the department gate ----------------------------------------------------------

  /**
   * `not (allowed_lower and dept_l not in [str(x).lower() for x in allowed_lower])`: an
   * empty allow-list admits everyone, and otherwise the student's trimmed, lower-cased
   * department must be listed.
   */
  predicate DepartmentAdmitted(allowedLower: seq<string>, department: Option<string>) {
    allowedLower == [] || Lower(Strip(department.GetOr(""))) in LowerAll(allowedLower)
  }

  /**
   * For an allow-list stored by `create_event`, the gate admits a student exactly when
   * the list is open or names the student's department, ignoring case and padding.
   */
  lemma AdmittedByNormalizedList(raw: Option<seq<string>>, department: Option<string>)
    ensures var (allowed, allowedLower) := NormalizeAllowedDepartments(raw);
      DepartmentAdmitted(allowedLower, department) <==>
        allowed == [] || exists i :: 0 <= i < |allowed| && Lower(allowed[i]) == Lower(Strip(department.GetOr("")))
  {
    var (allowed, allowedLower) := NormalizeAllowedDepartments(raw);
    var d := Lower(Strip(department.GetOr("")));
    var l := LowerAll(allowedLower);
    forall i | 0 <= i < |allowed| ensures l[i] == Lower(allowed[i]) {
      LowerIdempotent(allowed[i]);
    }
    if d in l {
      var i :| 0 <= i < |l| && l[i] == d;
      assert Lower(allowed[i]) == d;
    }
    if exists i :: 0 <= i < |allowed| && Lower(allowed[i]) == d {
      var i :| 0 <= i < |allowed| && Lower(allowed[i]) == d;
      assert l[i] == d;
    }
  }

  // ----- registrations ------------------------------------------------------------------

  /** One stored registration; `isPresent` starts out false and `attendedAt` empty. */
  datatype Registration = Registration(
    eventId: string,
    studentEmail: string,
    department: string,
    answers: map<string, string>,
    isPresent: bool,
    createdAt: Instant,
    attendedAt: Option<Instant>)

  /** The response model every route here returns. */
  datatype Response = Response(success: bool, message: string)

  /** The event document, as far as registration and attendance read it. */
  datatype EventDoc = EventDoc(
    managerEmail: Option<string>,
    allowedDepartmentsLower: seq<string>,
    formFields: seq<FormField>)

  /** The student profile found for the registering email; only its department is read. */
  datatype StudentProfile = StudentProfile(department: Option<string>)

  /** The body of a registration request. */
  datatype RegisterRequest = RegisterRequest(
    eventId: string,
    studentEmail: string,
    studentRole: string,
    answers: Option<map<string, string>>)

  predicate Matches(r: Registration, eventId: string, email: string) {
    r.eventId == eventId && r.studentEmail == email
  }

  /** `event_regs.exists(event_oid, email)`. */
  predicate IsRegistered(regs: seq<Registration>, eventId: string, email: string) {
    exists i :: 0 <= i < |regs| && Matches(regs[i], eventId, email)
  }

  /** No student is registered twice for the same event. */
  predicate Unique(regs: seq<Registration>) {
    forall i, j :: 0 <= i < j < |regs| ==>
      !(regs[i].eventId == regs[j].eventId && regs[i].studentEmail == regs[j].studentEmail)
  }

  /**
   * Everything `register_for_event` checks before it touches the registrations: domain,
   * role, event, student, department and answers, in that order.
   */
  function RegisterCheck(req: RegisterRequest, event: Option<EventDoc>, student: Option<StudentProfile>): Option<string> {
    if !IsAllowedDomain(req.studentEmail) then Some(DomainRejected)
    else if req.studentRole != "student" then Some("studentRole must be student.")
    else if event.None? then Some("Event not found.")
    else if student.None? then Some("Student not found.")
    else if !DepartmentAdmitted(event.value.allowedDepartmentsLower, student.value.department) then
      Some("This event is not visible for your department.")
    else AnswersError(event.value.formFields, req.answers.GetOr(map[]))
  }

  /** When the request itself is acceptable, independent of what is stored. */
  predicate MayRegister(req: RegisterRequest, event: Option<EventDoc>, student: Option<StudentProfile>) {
    && IsAllowedDomain(req.studentEmail)
    && req.studentRole == "student"
    && event.Some? && student.Some?
    && DepartmentAdmitted(event.value.allowedDepartmentsLower, student.value.department)
    && forall i :: 0 <= i < |event.value.formFields| ==> AnswerAcceptable(event.value.formFields[i], req.answers.GetOr(map[]))
  }

  lemma RegisterCheckIff(req: RegisterRequest, event: Option<EventDoc>, student: Option<StudentProfile>)
    ensures RegisterCheck(req, event, student).None? <==> MayRegister(req, event, student)
  {
    if event.Some? {
      AnswersErrorIff(event.value.formFields, req.answers.GetOr(map[]));
    }
  }

  /** The record `register_for_event` inserts. */
  function NewRegistration(req: RegisterRequest, student: StudentProfile, now: Instant): Registration {
    Registration(req.eventId, req.studentEmail, Strip(student.department.GetOr("")), req.answers.GetOr(map[]), false, now, None)
  }

  /**
   * `register_for_event`: the registrations afterwards and the response. `idValid` is
   * whether `ObjectId(event_id)` parses, `createOk` whether the insert succeeds, `now`
   * the clock reading.
   */
  function RegisterOutcome(regs: seq<Registration>, req: RegisterRequest, event: Option<EventDoc>,
                           student: Option<StudentProfile>, idValid: bool, createOk: bool, now: Instant)
    : (seq<Registration>, Response)
  {
    var check := RegisterCheck(req, event, student);
    if check.Some? then (regs, Response(false, check.value))
    else if !idValid then (regs, Response(false, "Invalid event id."))
    else if IsRegistered(regs, req.eventId, req.studentEmail) then (regs, Response(false, AlreadyRegistered))
    else if !createOk then (regs, Response(false, "Registration failed."))
    else (regs + [NewRegistration(req, student.value, now)], Response(true, "Registered successfully."))
  }

  /**
   * A registration succeeds exactly when the request is acceptable, the id parses, the
   * student is not yet registered for the event and the insert succeeds; it then adds
   * exactly one record, and otherwise nothing changes.
   */
  lemma RegisterSucceedsIff(regs: seq<Registration>, req: RegisterRequest, event: Option<EventDoc>,
                            student: Option<StudentProfile>, idValid: bool, createOk: bool, now: Instant)
    ensures var (after, resp) := RegisterOutcome(regs, req, event, student, idValid, createOk, now);
      && (resp.success <==>
            MayRegister(req, event, student) && idValid && !IsRegistered(regs, req.eventId, req.studentEmail) && createOk)
      && (resp.success ==> after == regs + [NewRegistration(req, student.value, now)])
      && (!resp.success ==> after == regs)
  {
    RegisterCheckIff(req, event, student);
  }

  /** After a successful registration, the same request is turned away as a duplicate. */
  lemma RegisterTwiceRejected(regs: seq<Registration>, req: RegisterRequest, event: Option<EventDoc>,
                              student: Option<StudentProfile>, idValid: bool, createOk: bool, now: Instant,
                              createOk2: bool, later: Instant)
    requires RegisterOutcome(regs, req, event, student, idValid, createOk, now).1.success
    ensures var after := RegisterOutcome(regs, req, event, student, idValid, createOk, now).0;
      RegisterOutcome(after, req, event, student, idValid, createOk2, later) == (after, Response(false, AlreadyRegistered))
  {
    var after := RegisterOutcome(regs, req, event, student, idValid, createOk, now).0;
    assert Matches(after[|regs|], req.eventId, req.studentEmail);
  }

  /** Registration keeps every (event, student) pair unique. */
  lemma RegisterKeepsUnique(regs: seq<Registration>, req: RegisterRequest, event: Option<EventDoc>,
                            student: Option<StudentProfile>, idValid: bool, createOk: bool, now: Instant)
    requires Unique(regs)
    ensures Unique(RegisterOutcome(regs, req, event, student, idValid, createOk, now).0)
  {
    var (after, resp) := RegisterOutcome(regs, req, event, student, idValid, createOk, now);
    if after != regs {
      forall i, j | 0 <= i < j < |after|
        ensures !(after[i].eventId == after[j].eventId && after[i].studentEmail == after[j].studentEmail)
      {
        if j == |regs| {
          assert !Matches(regs[i], req.eventId, req.studentEmail);
        }
      }
    }
  }

  // ----- attendance ---------------------------------------------------------------------

  /**
   * The first registration of `email` for the event, as `get_one` finds it from index
   * `i` on, or `None` when there is none.
   */
  function FindRegistrationFrom(regs: seq<Registration>, eventId: string, email: string, i: nat): (k: Option<nat>)
    requires i <= |regs|
    ensures k.None? <==> forall j :: i <= j < |regs| ==> !Matches(regs[j], eventId, email)
    ensures k.Some? ==>
      && i <= k.value < |regs| && Matches(regs[k.value], eventId, email)
      && (forall j :: i <= j < k.value ==> !Matches(regs[j], eventId, email))
    decreases |regs| - i
  {
    if i == |regs| then None
    else if Matches(regs[i], eventId, email) then Some(i)
    else FindRegistrationFrom(regs, eventId, email, i + 1)
  }

  function FindRegistration(regs: seq<Registration>, eventId: string, email: string): (k: Option<nat>)
    ensures k.None? <==> !IsRegistered(regs, eventId, email)
    ensures k.Some? ==> k.value < |regs| && Matches(regs[k.value], eventId, email)
  {
    FindRegistrationFrom(regs, eventId, email, 0)
  }

  /**
   * The identifier resolution of `mark_event_attendance`: a trimmed identifier with an
   * '@' is the email itself; otherwise it is a roll number, resolved through the student
   * profiles (`byRoll`) and then through the registration answers (`byAnswer`).
   */
  function ResolveStudent(identifier: string, byRoll: Option<string>, byAnswer: Option<string>): Result<string, string> {
    var id := Strip(identifier);
    if '@' in id then Ok(id)
    else if byRoll.Some? then Ok(byRoll.value)
    else if byAnswer.Some? then Ok(byAnswer.value)
    else Err("Student with identifier " + id + " not found in profiles or registrations.")
  }

  /**
   * An identifier with an '@' is taken as the email; a roll number is looked up in the
   * profiles first and in the registration answers second, and fails only when both
   * lookups find nothing.
   */
  lemma ResolveStudentCases(identifier: string, byRoll: Option<string>, byAnswer: Option<string>)
    ensures var r := ResolveStudent(identifier, byRoll, byAnswer);
      && ('@' in Strip(identifier) ==> r == Ok(Strip(identifier)))
      && ('@' !in Strip(identifier) && byRoll.Some? ==> r == Ok(byRoll.value))
      && ('@' !in Strip(identifier) && byRoll.None? && byAnswer.Some? ==> r == Ok(byAnswer.value))
      && (r.Err? <==> '@' !in Strip(identifier) && byRoll.None? && byAnswer.None?)
  {
  }

  /** The body of an attendance request. */
  datatype AttendanceRequest = AttendanceRequest(
    eventId: string,
    managerEmail: string,
    role: string,
    studentIdentifier: string,
    status: bool)

  function PresentWord(b: bool): string {
    if b then "present" else "absent"
  }

  /** Everything `mark_event_attendance` checks before it resolves the student. */
  function AttendanceCheck(req: AttendanceRequest, event: Option<EventDoc>, idValid: bool): Option<string> {
    if !IsAllowedDomain(req.managerEmail) then Some(DomainRejected)
    else if req.role != "event_manager" then Some("Role must be event_manager.")
    else if event.None? then Some("Event not found.")
    else if !SameUser(event.value.managerEmail, req.managerEmail) then Some("Not allowed.")
    else if !idValid then Some("Invalid event id.")
    else None
  }

  /**
   * The toggle once the registration at `k` is found: a status equal to the stored one
   * succeeds without a write; otherwise the write (which may fail, `writeOk`) sets the
   * flag and the attendance stamp the repository records.
   */
  function Toggle(regs: seq<Registration>, k: nat, status: bool, email: string, writeOk: bool, stamp: Option<Instant>)
    : (seq<Registration>, Response)
    requires k < |regs|
  {
    if regs[k].isPresent == status then
      (regs, Response(true, "Attendance is already marked as " + PresentWord(status) + " for " + email + "."))
    else if !writeOk then (regs, Response(false, "Failed to update attendance."))
    else
      (regs[k := regs[k].(isPresent := status, attendedAt := stamp)],
       Response(true, "Attendance marked as " + PresentWord(status) + " for " + email + "."))
  }

  /** `mark_event_attendance`: the registrations afterwards and the response. */
  function AttendanceOutcome(regs: seq<Registration>, req: AttendanceRequest, event: Option<EventDoc>, idValid: bool,
                             byRoll: Option<string>, byAnswer: Option<string>, writeOk: bool, stamp: Option<Instant>)
    : (seq<Registration>, Response)
  {
    var check := AttendanceCheck(req, event, idValid);
    if check.Some? then (regs, Response(false, check.value))
    else
      match ResolveStudent(req.studentIdentifier, byRoll, byAnswer)
      case Err(e) => (regs, Response(false, e))
      case Ok(email) =>
        match FindRegistration(regs, req.eventId, email)
        case None => (regs, Response(false, "Student " + email + " is not registered for this event."))
        case Some(k) => Toggle(regs, k, req.status, email, writeOk, stamp)
  }

  /**
   * The toggle changes at most the found registration, and only its flag and stamp; a
   * flag that already matches is reported as success with nothing written, and a
   * differing flag is written (with the new stamp) exactly when the write succeeds.
   */
  lemma ToggleTouchesOne(regs: seq<Registration>, k: nat, status: bool, email: string, writeOk: bool, stamp: Option<Instant>)
    requires k < |regs|
    ensures var (after, resp) := Toggle(regs, k, status, email, writeOk, stamp);
      && |after| == |regs|
      && (forall j :: 0 <= j < |regs| && j != k ==> after[j] == regs[j])
      && (after[k] == regs[k] || after[k] == regs[k].(isPresent := status, attendedAt := stamp))
      && (resp.success <==> regs[k].isPresent == status || writeOk)
      && (!resp.success ==> after == regs)
      && (resp.success ==> after[k].isPresent == status)
      && (regs[k].isPresent == status ==> after == regs && resp.success)
      && (regs[k].isPresent != status && writeOk ==>
            after == regs[k := regs[k].(isPresent := status, attendedAt := stamp)])
  {
  }

  /** The student an attendance request is about, once the checks pass. */
  function Target(req: AttendanceRequest, byRoll: Option<string>, byAnswer: Option<string>): Result<string, string> {
    ResolveStudent(req.studentIdentifier, byRoll, byAnswer)
  }

  /** At most the target's registration changes, and only its flag and stamp; a failed call changes nothing. */
  lemma AttendanceTouchesOne(regs: seq<Registration>, req: AttendanceRequest, event: Option<EventDoc>, idValid: bool,
                             byRoll: Option<string>, byAnswer: Option<string>, writeOk: bool, stamp: Option<Instant>)
    ensures var (after, resp) := AttendanceOutcome(regs, req, event, idValid, byRoll, byAnswer, writeOk, stamp);
      && |after| == |regs|
      && (forall j :: 0 <= j < |regs| && after[j] != regs[j] ==>
            && Target(req, byRoll, byAnswer).Ok?
            && Matches(regs[j], req.eventId, Target(req, byRoll, byAnswer).value)
            && after[j] == regs[j].(isPresent := req.status, attendedAt := stamp))
      && (!resp.success ==> after == regs)
  {
    var target := Target(req, byRoll, byAnswer);
    if AttendanceCheck(req, event, idValid).None? && target.Ok? && FindRegistration(regs, req.eventId, target.value).Some? {
      var k := FindRegistration(regs, req.eventId, target.value).value;
      OutcomeIsToggle(regs, req, event, idValid, byRoll, byAnswer, writeOk, stamp, target.value, k);
      ToggleTouchesOne(regs, k, req.status, target.value, writeOk, stamp);
    } else {
      OutcomeFailsEarly(regs, req, event, idValid, byRoll, byAnswer, writeOk, stamp);
    }
  }

  /**
   * The call succeeds exactly when the checks pass, the student resolves and is
   * registered, and either the stored status already matches or the write succeeds.
   */
  lemma AttendanceSucceedsIff(regs: seq<Registration>, req: AttendanceRequest, event: Option<EventDoc>, idValid: bool,
                              byRoll: Option<string>, byAnswer: Option<string>, writeOk: bool, stamp: Option<Instant>)
    ensures AttendanceOutcome(regs, req, event, idValid, byRoll, byAnswer, writeOk, stamp).1.success <==>
      && AttendanceCheck(req, event, idValid).None?
      && Target(req, byRoll, byAnswer).Ok?
      && IsRegistered(regs, req.eventId, Target(req, byRoll, byAnswer).value)
      && (regs[FindRegistration(regs, req.eventId, Target(req, byRoll, byAnswer).value).value].isPresent == req.status || writeOk)
  {
    var target := Target(req, byRoll, byAnswer);
    if AttendanceCheck(req, event, idValid).None? && target.Ok? && FindRegistration(regs, req.eventId, target.value).Some? {
      var k := FindRegistration(regs, req.eventId, target.value).value;
      OutcomeIsToggle(regs, req, event, idValid, byRoll, byAnswer, writeOk, stamp, target.value, k);
      ToggleTouchesOne(regs, k, req.status, target.value, writeOk, stamp);
    } else {
      OutcomeFailsEarly(regs, req, event, idValid, byRoll, byAnswer, writeOk, stamp);
    }
  }

  /** A call that fails a check, cannot resolve the student or finds no registration changes nothing. */
  lemma OutcomeFailsEarly(regs: seq<Registration>, req: AttendanceRequest, event: Option<EventDoc>, idValid: bool,
                          byRoll: Option<string>, byAnswer: Option<string>, writeOk: bool, stamp: Option<Instant>)
    requires AttendanceCheck(req, event, idValid).Some? || Target(req, byRoll, byAnswer).Err?
      || FindRegistration(regs, req.eventId, Target(req, byRoll, byAnswer).value).None?
    ensures var (after, resp) := AttendanceOutcome(regs, req, event, idValid, byRoll, byAnswer, writeOk, stamp);
      after == regs && !resp.success
  {
  }

  /** Once the checks pass and the student is found at `k`, the outcome is the toggle at `k`. */
  lemma OutcomeIsToggle(regs: seq<Registration>, req: AttendanceRequest, event: Option<EventDoc>, idValid: bool,
                        byRoll: Option<string>, byAnswer: Option<string>, writeOk: bool, stamp: Option<Instant>,
                        email: string, k: nat)
    requires AttendanceCheck(req, event, idValid).None?
    requires Target(req, byRoll, byAnswer) == Ok(email)
    requires FindRegistration(regs, req.eventId, email) == Some(k)
    ensures AttendanceOutcome(regs, req, event, idValid, byRoll, byAnswer, writeOk, stamp)
      == Toggle(regs, k, req.status, email, writeOk, stamp)
  {
  }

  /** A successful call got past the checks and found the student's registration. */
  lemma SuccessFound(regs: seq<Registration>, req: AttendanceRequest, event: Option<EventDoc>, idValid: bool,
                     byRoll: Option<string>, byAnswer: Option<string>, writeOk: bool, stamp: Option<Instant>)
    returns (email: string, k: nat)
    requires AttendanceOutcome(regs, req, event, idValid, byRoll, byAnswer, writeOk, stamp).1.success
    ensures AttendanceCheck(req, event, idValid).None?
    ensures Target(req, byRoll, byAnswer) == Ok(email)
    ensures FindRegistration(regs, req.eventId, email) == Some(k)
  {
    email := Target(req, byRoll, byAnswer).value;
    k := FindRegistration(regs, req.eventId, email).value;
  }

  /** Marking the same status twice: the second call succeeds and writes nothing. */
  lemma AttendanceIdempotent(regs: seq<Registration>, req: AttendanceRequest, event: Option<EventDoc>, idValid: bool,
                             byRoll: Option<string>, byAnswer: Option<string>, writeOk: bool, stamp: Option<Instant>,
                             writeOk2: bool, stamp2: Option<Instant>)
    requires AttendanceOutcome(regs, req, event, idValid, byRoll, byAnswer, writeOk, stamp).1.success
    ensures var after := AttendanceOutcome(regs, req, event, idValid, byRoll, byAnswer, writeOk, stamp).0;
      var (again, resp) := AttendanceOutcome(after, req, event, idValid, byRoll, byAnswer, writeOk2, stamp2);
      again == after && resp.success
  {
    var email, k := SuccessFound(regs, req, event, idValid, byRoll, byAnswer, writeOk, stamp);
    OutcomeIsToggle(regs, req, event, idValid, byRoll, byAnswer, writeOk, stamp, email, k);
    var after := Toggle(regs, k, req.status, email, writeOk, stamp).0;
    ToggleTouchesOne(regs, k, req.status, email, writeOk, stamp);
    FindAfterUpdate(regs, req.eventId, email, k, after[k]);
    assert after == regs[k := after[k]];
    OutcomeIsToggle(after, req, event, idValid, byRoll, byAnswer, writeOk2, stamp2, email, k);
    ToggleTouchesOne(after, k, req.status, email, writeOk2, stamp2);
  }

  /** Updating the found registration in place (keeping its event and email) leaves it the one found. */
  lemma FindAfterUpdate(regs: seq<Registration>, eventId: string, email: string, k: nat, r: Registration)
    requires FindRegistration(regs, eventId, email) == Some(k)
    requires r.eventId == regs[k].eventId && r.studentEmail == regs[k].studentEmail
    ensures FindRegistration(regs[k := r], eventId, email) == Some(k)
  {
    var after := regs[k := r];
    FindRegistrationFromSame(regs, after, eventId, email, 0, k);
  }

  lemma {:induction false} FindRegistrationFromSame(a: seq<Registration>, b: seq<Registration>, eventId: string, email: string, i: nat, k: nat)
    requires |a| == |b| && i <= k < |a|
    requires forall j :: 0 <= j < |a| ==> (Matches(a[j], eventId, email) <==> Matches(b[j], eventId, email))
    requires FindRegistrationFrom(a, eventId, email, i) == Some(k)
    ensures FindRegistrationFrom(b, eventId, email, i) == Some(k)
    decreases k - i
  {
    if i < k {
      FindRegistrationFromSame(a, b, eventId, email, i + 1, k);
    }
  }

  /** Attendance marking keeps every (event, student) pair unique. */
  lemma AttendanceKeepsUnique(regs: seq<Registration>, req: AttendanceRequest, event: Option<EventDoc>, idValid: bool,
                              byRoll: Option<string>, byAnswer: Option<string>, writeOk: bool, stamp: Option<Instant>)
    requires Unique(regs)
    ensures Unique(AttendanceOutcome(regs, req, event, idValid, byRoll, byAnswer, writeOk, stamp).0)
  {
    var after := AttendanceOutcome(regs, req, event, idValid, byRoll, byAnswer, writeOk, stamp).0;
    AttendanceTouchesOne(regs, req, event, idValid, byRoll, byAnswer, writeOk, stamp);
    forall i, j | 0 <= i < j < |after|
      ensures !(after[i].eventId == after[j].eventId && after[i].studentEmail == after[j].studentEmail)
    {
      assert after[i].eventId == regs[i].eventId && after[i].studentEmail == regs[i].studentEmail;
      assert after[j].eventId == regs[j].eventId && after[j].studentEmail == regs[j].studentEmail;
    }
  }
}
