/**
 * Account registration: the serverless `api/register.js` handler (students
 * and lecturers), and the `/api/register` and `/api/register/lecturer`
 * routes of server.js. Each is a check on the request, a duplicate check
 * against the table, and one insert.
 */
module Registration {
  import opened Wrappers
  import opened Seqs
  import opened Js
  import opened Store
  import opened Http
  import opened Utils

  /** The row a registration inserts. */
  datatype Registrant = NewStudent(student: StudentRow) | NewLecturer(lecturer: LecturerRow)

  /** The student rows an optional insert contributes. */
  function StudentPart(r: Option<Registrant>): seq<StudentRow> {
    if r.Some? && r.value.NewStudent? then [r.value.student] else []
  }

  /** The lecturer rows an optional insert contributes. */
  function LecturerPart(r: Option<Registrant>): seq<LecturerRow> {
    if r.Some? && r.value.NewLecturer? then [r.value.lecturer] else []
  }

  /** A decision about one table, seen as a decision about the registrant. */
  function Lift<R>(d: Decision<R>, f: R -> Registrant): (e: Decision<Registrant>)
    ensures e.outcome == d.outcome
    ensures e.insert.Some? <==> d.insert.Some?
    ensures d.insert.Some? ==> e.insert.value == f(d.insert.value)
  {
    Decision(d.outcome, if d.insert.Some? then Some(f(d.insert.value)) else None)
  }

  /** The duplicate query `WHERE mat_no = ? OR email = ?`. */
  predicate StudentTaken(students: seq<StudentRow>, matNo: string, email: string) {
    exists i :: 0 <= i < |students| && (students[i].matNo == matNo || students[i].email == email)
  }

  /** The duplicate query `WHERE lecturer_id = ? OR email = ?`. */
  predicate LecturerTaken(lecturers: seq<LecturerRow>, staffId: string, email: string) {
    exists i :: 0 <= i < |lecturers| && (lecturers[i].staffId == staffId || lecturers[i].email == email)
  }

  /** The table invariant the student registrations keep: no two students share a matriculation number or an email. */
  predicate StudentsUnique(students: seq<StudentRow>) {
    forall i, j :: 0 <= i < j < |students| ==>
      students[i].matNo != students[j].matNo && students[i].email != students[j].email
  }

  /** The table invariant the lecturer registrations keep: no two lecturers share a staff id or an email. */
  predicate LecturersUnique(lecturers: seq<LecturerRow>) {
    forall i, j :: 0 <= i < j < |lecturers| ==>
      lecturers[i].staffId != lecturers[j].staffId && lecturers[i].email != lecturers[j].email
  }

  /** The student fields of the request body, as the handlers destructure them. */
  datatype StudentForm = StudentForm(name: Value, matNo: Value, email: Value, phone: Value)

  function StudentFormOf(body: map<string, Value>): StudentForm {
    StudentForm(Get(body, "name"), Get(body, "matNo"), Get(body, "email"), Get(body, "phone"))
  }

  /** The lecturer fields of the request body; `staffId` is `lecturer_id`. */
  datatype LecturerForm = LecturerForm(staffId: Value, name: Value, email: Value, phone: Value, password: Value)

  function LecturerFormOf(body: map<string, Value>): LecturerForm {
    LecturerForm(Get(body, "lecturer_id"), Get(body, "name"), Get(body, "email"), Get(body, "phone"), Get(body, "password"))
  }

  /** `name`, `matNo`, `email` and `phone` are all truthy. */
  predicate StudentFieldsGiven(form: StudentForm) {
    Truthy(form.name) && Truthy(form.matNo) && Truthy(form.email) && Truthy(form.phone)
  }

  /** The four student fields are strings. */
  predicate StudentFieldsStrings(form: StudentForm) {
    form.name.Str? && form.matNo.Str? && form.email.Str? && form.phone.Str?
  }

  /** `name`, `lecturer_id`, `email`, `phone` and `password` are all truthy. */
  predicate LecturerFieldsGiven(form: LecturerForm) {
    && Truthy(form.name) && Truthy(form.staffId) && Truthy(form.email)
    && Truthy(form.phone) && Truthy(form.password)
  }

  /** The five lecturer fields are strings. */
  predicate LecturerFieldsStrings(form: LecturerForm) {
    && form.name.Str? && form.staffId.Str? && form.email.Str?
    && form.phone.Str? && form.password.Str?
  }
  const API_STUDENT_TAKEN: string := "Student with this Matriculation No. " + "or Email already exists"
  const API_LECTURER_TAKEN: string := "Lecturer with this ID " + "or Email already exists"
  const LECTURER_FIELDS_REQUIRED: string := "All fields are required " + "for lecturer registration"
  const STUDENT_DB_ERROR: string := "Database error during " + "student registration"
  const STUDENT_FIELDS_REQUIRED: string := "All fields and face scan are required " + "for student registration"

  /**
   * The student steps both deployments share: every field and the face
   * image present, `matNo.trim()` and `email.trim()` for the duplicate
   * query, then `name.trim()` and `phone.trim()` for the insert. `face` is
   * what the row stores for the uploaded image; the 409 and 201 texts
   * differ between the deployments.
   */
  function StudentSteps(form: StudentForm, face: Option<string>, students: seq<StudentRow>, nextId: int,
                        takenText: string, doneText: string): (d: Decision<StudentRow>)
    ensures (!StudentFieldsGiven(form) || face.None?) ==> d == Reply(Msg(400, STUDENT_FIELDS_REQUIRED))
    ensures d.insert.Some? <==>
      && StudentFieldsGiven(form) && face.Some?
      && StudentFieldsStrings(form)
      && !StudentTaken(students, Trim(form.matNo.s), Trim(form.email.s))
    ensures d.insert.Some? ==>
      && d.insert.value == StudentRow(nextId, Trim(form.matNo.s), Trim(form.name.s),
                                      Trim(form.email.s), Trim(form.phone.s), face.value)
      && d.outcome == Returned(Msg(201, doneText))
    ensures (StudentFieldsGiven(form) && face.Some? && form.matNo.Str? && form.email.Str?
      && StudentTaken(students, Trim(form.matNo.s), Trim(form.email.s))) ==>
      d == Reply(Msg(409, takenText))
    ensures d.outcome.Returned? ==> d.outcome.response.status in {201, 400, 409}
  {
    if !StudentFieldsGiven(form) || face.None? then Reply(Msg(400, STUDENT_FIELDS_REQUIRED))
    else
      match TrimValue(form.matNo, "matNo")
      case TrimFails(e) => Throw(e)
      case Trimmed(matNo) =>
        match TrimValue(form.email, "email")
        case TrimFails(e) => Throw(e)
        case Trimmed(email) =>
          if StudentTaken(students, matNo, email) then Reply(Msg(409, takenText))
          else
            match TrimValue(form.name, "name")
            case TrimFails(e) => Throw(e)
            case Trimmed(name) =>
              match TrimValue(form.phone, "phone")
              case TrimFails(e) => Throw(e)
              case Trimmed(phone) =>
                Decision(Returned(Msg(201, doneText)), Some(StudentRow(nextId, matNo, name, email, phone, face.value)))
  }

  /**
   * The lecturer steps both deployments share once the fields are checked:
   * `lecturer_id.trim()` and `email.trim()` for the duplicate query,
   * `password.trim()` for the hash, then `name.trim()` and `phone.trim()`
   * for the insert. The row stores the digest of the trimmed password,
   * never the password itself.
   */
  function LecturerSteps(form: LecturerForm, lecturers: seq<LecturerRow>, nextId: int,
                         takenText: string, doneText: string): (d: Decision<LecturerRow>)
    ensures d.insert.Some? <==>
      && form.staffId.Str? && form.email.Str?
      && !LecturerTaken(lecturers, Trim(form.staffId.s), Trim(form.email.s))
      && LecturerFieldsStrings(form)
    ensures d.insert.Some? ==>
      && d.insert.value == LecturerRow(nextId, Trim(form.staffId.s), Trim(form.name.s),
                                       Trim(form.email.s), Trim(form.phone.s),
                                       Hashed(Trim(form.password.s)))
      && d.outcome == Returned(Msg(201, doneText))
    ensures (form.staffId.Str? && form.email.Str?
      && LecturerTaken(lecturers, Trim(form.staffId.s), Trim(form.email.s))) ==>
      d == Reply(Msg(409, takenText))
    ensures d.outcome.Returned? ==> d.outcome.response.status in {201, 409}
    ensures d.outcome.Returned? <==> (LecturerFieldsStrings(form) ||
      (form.staffId.Str? && form.email.Str?
        && LecturerTaken(lecturers, Trim(form.staffId.s), Trim(form.email.s))))
  {
    match TrimValue(form.staffId, "lecturer_id")
    case TrimFails(e) => Throw(e)
    case Trimmed(staffId) =>
      match TrimValue(form.email, "email")
      case TrimFails(e) => Throw(e)
      case Trimmed(email) =>
        if LecturerTaken(lecturers, staffId, email) then Reply(Msg(409, takenText))
        else
          LecturerRest(form, nextId, staffId, email, doneText)
  }

  /** The rest of the lecturer steps once the staff id and email are free: trim the password, name and phone, then insert. */
  function LecturerRest(form: LecturerForm, nextId: int, staffId: string, email: string,
                        doneText: string): (d: Decision<LecturerRow>)
    ensures d.insert.Some? <==> form.password.Str? && form.name.Str? && form.phone.Str?
    ensures d.insert.Some? ==>
      && d.insert.value == LecturerRow(nextId, staffId, Trim(form.name.s), email, Trim(form.phone.s),
                                       Hashed(Trim(form.password.s)))
      && d.outcome == Returned(Msg(201, doneText))
    ensures d.outcome.Returned? ==> d.insert.Some?
  {
    match TrimValue(form.password, "password")
    case TrimFails(e) => Throw(e)
    case Trimmed(password) =>
      match TrimValue(form.name, "name")
      case TrimFails(e) => Throw(e)
      case Trimmed(name) =>
        match TrimValue(form.phone, "phone")
        case TrimFails(e) => Throw(e)
        case Trimmed(phone) =>
          Decision(Returned(Msg(201, doneText)), Some(LecturerRow(nextId, staffId, name, email, phone, Hashed(password))))
  }

  /** The lecturer branch of api/register.js: every field truthy, then the shared steps. */
  function ApiLecturer(body: map<string, Value>, lecturers: seq<LecturerRow>, nextId: int)
    : (d: Decision<LecturerRow>)
    ensures !LecturerFieldsGiven(LecturerFormOf(body)) ==> d == Reply(Msg(400, LECTURER_FIELDS_REQUIRED))
    ensures LecturerFieldsGiven(LecturerFormOf(body)) ==>
      d == LecturerSteps(LecturerFormOf(body), lecturers, nextId, API_LECTURER_TAKEN, "Lecturer registered successfully!")
  {
    if !LecturerFieldsGiven(LecturerFormOf(body)) then Reply(Msg(400, LECTURER_FIELDS_REQUIRED))
    else LecturerSteps(LecturerFormOf(body), lecturers, nextId, API_LECTURER_TAKEN, "Lecturer registered successfully!")
  }

  /**
   * api/register.js: OPTIONS answers 200 with no body, other methods but
   * POST 405; then `userType` picks the branch. `faceScan` is the Base64
   * text of the uploaded image, None when no file came.
   */
  function RegisterApi(verb: string, body: map<string, Value>, faceScan: Option<string>,
                       students: seq<StudentRow>, lecturers: seq<LecturerRow>)
    : (d: Decision<Registrant>)
    ensures verb == "OPTIONS" ==> d == Reply(Response(200, Empty))
    ensures verb != "OPTIONS" && verb != "POST" ==> d == Reply(Msg(405, "Method Not Allowed"))
    ensures verb == "POST" && Get(body, "userType") == Str("student") ==>
      d == Lift(StudentSteps(StudentFormOf(body), faceScan, students, |students| + 1,
                             API_STUDENT_TAKEN,
                             "Student registered successfully!"), NewStudentOf())
    ensures verb == "POST" && Get(body, "userType") == Str("lecturer") ==>
      d == Lift(ApiLecturer(body, lecturers, |lecturers| + 1), NewLecturerOf())
    ensures verb == "POST" && Get(body, "userType") != Str("student") && Get(body, "userType") != Str("lecturer") ==>
      d == Reply(Msg(400, "Invalid user type provided"))
  {
    if verb == "OPTIONS" then Reply(Response(200, Empty))
    else if verb != "POST" then Reply(Msg(405, "Method Not Allowed"))
    else if Get(body, "userType") == Str("student") then
      Lift(StudentSteps(StudentFormOf(body), faceScan, students, |students| + 1,
                        API_STUDENT_TAKEN,
                        "Student registered successfully!"), NewStudentOf())
    else if Get(body, "userType") == Str("lecturer") then
      Lift(ApiLecturer(body, lecturers, |lecturers| + 1), NewLecturerOf())
    else Reply(Msg(400, "Invalid user type provided"))
  }

  function NewStudentOf(): StudentRow -> Registrant {
    (s: StudentRow) => NewStudent(s)
  }

  function NewLecturerOf(): LecturerRow -> Registrant {
    (l: LecturerRow) => NewLecturer(l)
  }

  /** `handleStudentRegistration` of server.js: the shared steps, with any rejection answered as 500. */
  function ServerStudent(body: map<string, Value>, file: Option<string>, students: seq<StudentRow>, nextId: int)
    : (d: Decision<StudentRow>)
    ensures d.outcome.Returned?
    ensures d.insert == StudentSteps(StudentFormOf(body), file, students, nextId, "Student already exists", "Student registered successfully").insert
    ensures StudentSteps(StudentFormOf(body), file, students, nextId, "Student already exists", "Student registered successfully").outcome.Threw? ==>
      d.outcome.response == Msg(500, STUDENT_DB_ERROR)
  {
    var d := StudentSteps(StudentFormOf(body), file, students, nextId, "Student already exists", "Student registered successfully");
    match d.outcome
    case Threw(_) => Reply(Msg(500, STUDENT_DB_ERROR))
    case Returned(_) => d
  }

  /**
   * `handleRegistration` of server.js: `userType` must be truthy and one of
   * the two types. The lecturer branch calls `handleLecturerRegistration`,
   * which server.js never declares, so it rejects with a ReferenceError.
   */
  function ServerRegister(body: map<string, Value>, file: Option<string>, students: seq<StudentRow>)
    : (d: Decision<StudentRow>)
    ensures !Truthy(Get(body, "userType")) ==> d == Reply(Msg(400, "userType is required"))
    ensures Truthy(Get(body, "userType")) && Get(body, "userType") != Str("student") && Get(body, "userType") != Str("lecturer") ==>
      d == Reply(Msg(400, "Invalid user type"))
    ensures Get(body, "userType") == Str("student") ==> d == ServerStudent(body, file, students, |students| + 1)
    ensures Get(body, "userType") == Str("lecturer") ==> d == Throw(ReferenceError("handleLecturerRegistration"))
  {
    var userType := Get(body, "userType");
    if !Truthy(userType) then Reply(Msg(400, "userType is required"))
    else if userType != Str("student") && userType != Str("lecturer") then Reply(Msg(400, "Invalid user type"))
    else if userType == Str("student") then ServerStudent(body, file, students, |students| + 1)
    else Throw(ReferenceError("handleLecturerRegistration"))
  }

  /**
   * How `/api/register` settles: `handleRegistration` is called without a
   * `next`, so a rejection reaches no handler and the request is never
   * answered (None).
   */
  function Answer(o: Outcome): (r: Option<Response>)
    ensures r.Some? <==> o.Returned?
    ensures o.Returned? ==> r == Some(o.response)
  {
    match o
    case Returned(resp) => Some(resp)
    case Threw(_) => None
  }

  /** The scan of the required fields: the blank ones in order, or the rejection of a `trim` call. */
  datatype Scan = Listed(missing: seq<string>) | ScanFails(error: JsError)

  const SERVER_LECTURER_FIELDS: seq<string> := ["lecturer_id", "name", "email", "phone", "password"]

  /** A truthy value that is not a string: `value.trim()` throws on it. */
  predicate Untrimmable(v: Value) {
    Truthy(v) && !v.Str?
  }

  /**
   * `Object.entries(requiredFields).filter(...).map(...)`: the fields that
   * are falsy or blank, in the order given; a truthy non-string makes the
   * filter throw.
   */
  function BlankFields(body: map<string, Value>, fields: seq<string>): (r: Scan)
    ensures r.ScanFails? ==> r.error == TypeError("value.trim")
  {
    if fields == [] then Listed([])
    else
      var f := fields[|fields| - 1];
      match BlankFields(body, fields[..|fields| - 1])
      case ScanFails(e) => ScanFails(e)
      case Listed(ms) =>
        if Untrimmable(Get(body, f)) then ScanFails(TypeError("value.trim"))
        else Listed(ms + (if MissingField(body)(f) then [f] else []))
  }

  /** The scan throws exactly when some field is a truthy non-string. */
  lemma {:induction false} BlankFieldsFails(body: map<string, Value>, fields: seq<string>)
    ensures BlankFields(body, fields).ScanFails? <==> exists f :: f in fields && Untrimmable(Get(body, f))
  {
    if fields != [] {
      var init, last := fields[..|fields| - 1], fields[|fields| - 1];
      BlankFieldsFails(body, init);
      assert fields == init + [last];
      assert forall f :: f in fields <==> f in init || f == last;
    }
  }

  /** When the scan does not throw, it lists exactly the blank fields, in the order given. */
  lemma {:induction false} BlankFieldsLists(body: map<string, Value>, fields: seq<string>)
    requires BlankFields(body, fields).Listed?
    ensures BlankFields(body, fields).missing == Filter(fields, MissingField(body))
  {
    if fields != [] {
      var init, f := fields[..|fields| - 1], fields[|fields| - 1];
      BlankFieldsLists(body, init);
      assert fields == init + [f];
      FilterSnoc(init, f, MissingField(body));
    }
  }

  function MissingField(body: map<string, Value>): string -> bool {
    (f: string) => Missing(Get(body, f))
  }

  /**
   * The list agrees with `validateInput` over the same fields: it is empty
   * exactly when validation passes, and otherwise starts with the field
   * validation reports.
   */
  lemma BlankFieldsAgreeWithValidation(body: map<string, Value>, fields: seq<string>)
    requires BlankFields(body, fields).Listed?
    ensures BlankFields(body, fields).missing == [] <==> ValidationError(body, fields).None?
    ensures BlankFields(body, fields).missing != [] ==>
      ValidationError(body, fields) == Some(BlankFields(body, fields).missing[0] + " is required")
  {
    BlankFieldsLists(body, fields);
    var p := MissingField(body);
    FilterHeadIsFirst(fields, p);
    if Filter(fields, p) != [] {
      var k := FirstIndex(fields, p).value;
      assert First(fields, p) == Some(fields[k]);
      FirstFailingIs(body, fields, Missing, k);
    }
  }

  const LECTURER_EXISTS: string := "Lecturer already exists " + "with this ID or email"

  /** The 400 body of the lecturer route: the text joins the missing names. */
  function MissingBody(ms: seq<string>): Body {
    MissingFields("All fields are required (" + JoinWith(ms, ", ") + ")", ms)
  }

  /**
   * `POST /api/register/lecturer` of server.js: the blank-field scan (400
   * with the joined list), then the shared steps. Once the scan lists
   * nothing, every field is a non-blank string and no `trim` can throw.
   */
  function ServerLecturer(body: map<string, Value>, lecturers: seq<LecturerRow>, nextId: int)
    : (d: Decision<LecturerRow>)
    ensures BlankFields(body, SERVER_LECTURER_FIELDS).ScanFails? ==> d == Throw(BlankFields(body, SERVER_LECTURER_FIELDS).error)
    ensures BlankFields(body, SERVER_LECTURER_FIELDS).Listed? && BlankFields(body, SERVER_LECTURER_FIELDS).missing != [] ==>
      d == Reply(Response(400, MissingBody(BlankFields(body, SERVER_LECTURER_FIELDS).missing)))
    ensures BlankFields(body, SERVER_LECTURER_FIELDS) == Listed([]) ==>
      d == LecturerSteps(LecturerFormOf(body), lecturers, nextId, LECTURER_EXISTS, "Lecturer registered successfully")
  {
    match BlankFields(body, SERVER_LECTURER_FIELDS)
    case ScanFails(e) => Throw(e)
    case Listed(ms) =>
      if ms != [] then Reply(Response(400, MissingBody(ms)))
      else LecturerSteps(LecturerFormOf(body), lecturers, nextId, LECTURER_EXISTS, "Lecturer registered successfully")
  }

  /** With nothing listed, every field is a string. */
  lemma NoBlankMeansStrings(body: map<string, Value>, fields: seq<string>)
    requires BlankFields(body, fields) == Listed([])
    ensures forall i :: 0 <= i < |fields| ==> Get(body, fields[i]).Str?
  {
    BlankFieldsFails(body, fields);
    BlankFieldsLists(body, fields);
    assert forall i :: 0 <= i < |fields| ==> !MissingField(body)(fields[i]);
    assert forall i :: 0 <= i < |fields| ==> !Untrimmable(Get(body, fields[i]));
  }

  /**
   * The route answers every request whose five fields are strings or
   * falsy: only a truthy non-string can make it reject, and once the scan
   * lists nothing the shared steps cannot throw.
   */
  lemma ServerLecturerRejectsOnlyUntrimmable(body: map<string, Value>, lecturers: seq<LecturerRow>, nextId: int)
    ensures ServerLecturer(body, lecturers, nextId).outcome.Threw? <==>
      exists f :: f in SERVER_LECTURER_FIELDS && Untrimmable(Get(body, f))
  {
    BlankFieldsFails(body, SERVER_LECTURER_FIELDS);
    if BlankFields(body, SERVER_LECTURER_FIELDS) == Listed([]) {
      NoBlankLecturerForm(body);
    }
  }

  /** With nothing listed, the five lecturer fields are strings. */
  lemma NoBlankLecturerForm(body: map<string, Value>)
    requires BlankFields(body, SERVER_LECTURER_FIELDS) == Listed([])
    ensures LecturerFieldsStrings(LecturerFormOf(body))
  {
    NoBlankMeansStrings(body, SERVER_LECTURER_FIELDS);
    assert Get(body, SERVER_LECTURER_FIELDS[0]).Str? && Get(body, SERVER_LECTURER_FIELDS[1]).Str?;
    assert Get(body, SERVER_LECTURER_FIELDS[2]).Str? && Get(body, SERVER_LECTURER_FIELDS[3]).Str?;
    assert Get(body, SERVER_LECTURER_FIELDS[4]).Str?;
  }

  /**
   * `handleRegistration` as evidently intended: the lecturer branch runs
   * the lecturer registration of `/api/register/lecturer`.
   */
  function CorrectedServerRegister(body: map<string, Value>, file: Option<string>, students: seq<StudentRow>,
                                   lecturers: seq<LecturerRow>): (d: Decision<Registrant>)
    ensures Get(body, "userType") != Str("lecturer") ==> d == Lift(ServerRegister(body, file, students), NewStudentOf())
    ensures Get(body, "userType") == Str("lecturer") ==>
      d == Lift(ServerLecturer(body, lecturers, |lecturers| + 1), NewLecturerOf())
  {
    if Get(body, "userType") == Str("lecturer") then Lift(ServerLecturer(body, lecturers, |lecturers| + 1), NewLecturerOf())
    else Lift(ServerRegister(body, file, students), NewStudentOf())
  }

  /** As written, no lecturer registration through `/api/register` is ever answered, and none inserts. */
  lemma LecturerRegistrationUnanswered(body: map<string, Value>, file: Option<string>, students: seq<StudentRow>)
    requires Get(body, "userType") == Str("lecturer")
    ensures Answer(ServerRegister(body, file, students).outcome).None?
    ensures ServerRegister(body, file, students).insert.None?
  {
  }

  /**
   * As corrected, `/api/register` answers every request except a lecturer
   * registration carrying a truthy non-string field.
   */
  lemma CorrectedRegistrationAnswers(body: map<string, Value>, file: Option<string>, students: seq<StudentRow>,
                                     lecturers: seq<LecturerRow>)
    ensures Answer(CorrectedServerRegister(body, file, students, lecturers).outcome).None? <==>
      Get(body, "userType") == Str("lecturer") && exists f :: f in SERVER_LECTURER_FIELDS && Untrimmable(Get(body, f))
  {
    if Get(body, "userType") == Str("lecturer") {
      ServerLecturerRejectsOnlyUntrimmable(body, lecturers, |lecturers| + 1);
    }
  }

  /** Appending a student whose matriculation number and email are both new keeps them unique. */
  lemma AppendKeepsStudentsUnique(students: seq<StudentRow>, row: StudentRow)
    requires StudentsUnique(students)
    requires !StudentTaken(students, row.matNo, row.email)
    ensures StudentsUnique(students + [row])
  {
    var rs := students + [row];
    forall i, j | 0 <= i < j < |rs| ensures rs[i].matNo != rs[j].matNo && rs[i].email != rs[j].email {
      if j == |students| {
        assert rs[i] == students[i];
      }
    }
  }

  /** Appending a lecturer whose staff id and email are both new keeps them unique. */
  lemma AppendKeepsLecturersUnique(lecturers: seq<LecturerRow>, row: LecturerRow)
    requires LecturersUnique(lecturers)
    requires !LecturerTaken(lecturers, row.staffId, row.email)
    ensures LecturersUnique(lecturers + [row])
  {
    var rs := lecturers + [row];
    forall i, j | 0 <= i < j < |rs| ensures rs[i].staffId != rs[j].staffId && rs[i].email != rs[j].email {
      if j == |lecturers| {
        assert rs[i] == lecturers[i];
      }
    }
  }

  /** The student steps keep matriculation numbers and emails unique. */
  lemma StudentStepsKeepUnique(form: StudentForm, face: Option<string>, students: seq<StudentRow>, nextId: int,
                               takenText: string, doneText: string)
    requires StudentsUnique(students)
    ensures StudentsUnique(students + StudentSteps(form, face, students, nextId, takenText, doneText).insert.ToSeq())
  {
    var d := StudentSteps(form, face, students, nextId, takenText, doneText);
    if d.insert.Some? {
      AppendKeepsStudentsUnique(students, d.insert.value);
    }
  }

  /** The lecturer steps keep staff ids and emails unique. */
  lemma LecturerStepsKeepUnique(form: LecturerForm, lecturers: seq<LecturerRow>, nextId: int,
                                takenText: string, doneText: string)
    requires LecturersUnique(lecturers)
    ensures LecturersUnique(lecturers + LecturerSteps(form, lecturers, nextId, takenText, doneText).insert.ToSeq())
  {
    var d := LecturerSteps(form, lecturers, nextId, takenText, doneText);
    if d.insert.Some? {
      AppendKeepsLecturersUnique(lecturers, d.insert.value);
    }
  }

  /** Sending the same successful student registration again answers 409 and inserts nothing. */
  lemma StudentTwiceConflicts(form: StudentForm, face: Option<string>, students: seq<StudentRow>, nextId: int,
                              takenText: string, doneText: string)
    requires StudentSteps(form, face, students, nextId, takenText, doneText).insert.Some?
    ensures var row := StudentSteps(form, face, students, nextId, takenText, doneText).insert.value;
      StudentSteps(form, face, students + [row], nextId + 1, takenText, doneText) == Reply(Msg(409, takenText))
  {
    var row := StudentSteps(form, face, students, nextId, takenText, doneText).insert.value;
    assert (students + [row])[|students|] == row;
  }

  /** Sending the same successful lecturer registration again answers 409 and inserts nothing. */
  lemma LecturerTwiceConflicts(form: LecturerForm, lecturers: seq<LecturerRow>, nextId: int,
                               takenText: string, doneText: string)
    requires LecturerSteps(form, lecturers, nextId, takenText, doneText).insert.Some?
    ensures var row := LecturerSteps(form, lecturers, nextId, takenText, doneText).insert.value;
      LecturerSteps(form, lecturers + [row], nextId + 1, takenText, doneText) == Reply(Msg(409, takenText))
  {
    var row := LecturerSteps(form, lecturers, nextId, takenText, doneText).insert.value;
    assert (lecturers + [row])[|lecturers|] == row;
  }

  /** The student steps, run one `trim` at a time: the outcome and the row to insert. */
  method RunStudentSteps(form: StudentForm, face: Option<string>, students: seq<StudentRow>, nextId: int,
                         takenText: string, doneText: string) returns (outcome: Outcome, row: Option<StudentRow>)
    ensures Decision(outcome, row) == StudentSteps(form, face, students, nextId, takenText, doneText)
  {
    if !StudentFieldsGiven(form) || face.None? {
      return Returned(Msg(400, STUDENT_FIELDS_REQUIRED)), None;
    }
    var matNo := TrimValue(form.matNo, "matNo");
    if matNo.TrimFails? {
      return Threw(matNo.error), None;
    }
    var email := TrimValue(form.email, "email");
    if email.TrimFails? {
      return Threw(email.error), None;
    }
    if StudentTaken(students, matNo.s, email.s) {
      return Returned(Msg(409, takenText)), None;
    }
    var name := TrimValue(form.name, "name");
    if name.TrimFails? {
      return Threw(name.error), None;
    }
    var phone := TrimValue(form.phone, "phone");
    if phone.TrimFails? {
      return Threw(phone.error), None;
    }
    outcome := Returned(Msg(201, doneText));
    row := Some(StudentRow(nextId, matNo.s, name.s, email.s, phone.s, face.value));
  }

  /** The student steps against the store: the next id, and the row inserted when the steps produce one. */
  method InsertStudentIfNew(db: Db, form: StudentForm, face: Option<string>, takenText: string, doneText: string)
    returns (outcome: Outcome)
    requires db.Valid()
    modifies db
    ensures db.Valid()
    ensures var d := StudentSteps(form, face, old(db.students), |old(db.students)| + 1, takenText, doneText);
      outcome == d.outcome && db.students == old(db.students) + d.insert.ToSeq()
    ensures db.codes == old(db.codes) && db.records == old(db.records) && db.courses == old(db.courses)
    ensures db.lecturers == old(db.lecturers) && db.admins == old(db.admins)
  {
    var row;
    outcome, row := RunStudentSteps(form, face, db.students, |db.students| + 1, takenText, doneText);
    if row.Some? {
      db.InsertStudent(row.value);
    }
  }

  /** The lecturer steps, run one `trim` at a time: the outcome and the row to insert. */
  method RunLecturerSteps(form: LecturerForm, lecturers: seq<LecturerRow>, nextId: int,
                          takenText: string, doneText: string) returns (outcome: Outcome, row: Option<LecturerRow>)
    ensures Decision(outcome, row) == LecturerSteps(form, lecturers, nextId, takenText, doneText)
  {
    var staffId := TrimValue(form.staffId, "lecturer_id");
    if staffId.TrimFails? {
      return Threw(staffId.error), None;
    }
    var email := TrimValue(form.email, "email");
    if email.TrimFails? {
      return Threw(email.error), None;
    }
    if LecturerTaken(lecturers, staffId.s, email.s) {
      return Returned(Msg(409, takenText)), None;
    }
    var password := TrimValue(form.password, "password");
    if password.TrimFails? {
      return Threw(password.error), None;
    }
    var passwordHash := Hashed(password.s);
    var name := TrimValue(form.name, "name");
    if name.TrimFails? {
      return Threw(name.error), None;
    }
    var phone := TrimValue(form.phone, "phone");
    if phone.TrimFails? {
      return Threw(phone.error), None;
    }
    outcome := Returned(Msg(201, doneText));
    row := Some(LecturerRow(nextId, staffId.s, name.s, email.s, phone.s, passwordHash));
  }

  /** The lecturer steps against the store: the next id, and the row inserted when the steps produce one. */
  method InsertLecturerIfNew(db: Db, form: LecturerForm, takenText: string, doneText: string)
    returns (outcome: Outcome)
    requires db.Valid()
    modifies db
    ensures db.Valid()
    ensures var d := LecturerSteps(form, old(db.lecturers), |old(db.lecturers)| + 1, takenText, doneText);
      outcome == d.outcome && db.lecturers == old(db.lecturers) + d.insert.ToSeq()
    ensures db.codes == old(db.codes) && db.records == old(db.records) && db.courses == old(db.courses)
    ensures db.students == old(db.students) && db.admins == old(db.admins)
  {
    var row;
    outcome, row := RunLecturerSteps(form, db.lecturers, |db.lecturers| + 1, takenText, doneText);
    if row.Some? {
      db.InsertLecturer(row.value);
    }
  }

  /** api/register.js against the store: one row at most, in the table `userType` names. */
  method RegisterHandler(db: Db, verb: string, body: map<string, Value>, faceScan: Option<string>)
    returns (resp: Response)
    requires db.Valid()
    modifies db
    ensures db.Valid()
    ensures var d := RegisterApi(verb, body, faceScan, old(db.students), old(db.lecturers));
      && resp == MessageGuard(d.outcome)
      && db.students == old(db.students) + StudentPart(d.insert)
      && db.lecturers == old(db.lecturers) + LecturerPart(d.insert)
    ensures db.codes == old(db.codes) && db.records == old(db.records) && db.courses == old(db.courses)
    ensures db.admins == old(db.admins)
  {
    ghost var d := RegisterApi(verb, body, faceScan, db.students, db.lecturers);
    if verb == "OPTIONS" {
      return Response(200, Empty);
    }
    if verb != "POST" {
      return Msg(405, "Method Not Allowed");
    }
    var userType := Get(body, "userType");
    if userType == Str("student") {
      ghost var s := StudentSteps(StudentFormOf(body), faceScan, db.students, |db.students| + 1,
        API_STUDENT_TAKEN, "Student registered successfully!");
      assert d == Lift(s, NewStudentOf());
      var outcome := InsertStudentIfNew(db, StudentFormOf(body), faceScan,
        API_STUDENT_TAKEN, "Student registered successfully!");
      assert StudentPart(d.insert) == s.insert.ToSeq() && LecturerPart(d.insert) == [];
      return MessageGuard(outcome);
    }
    if userType == Str("lecturer") {
      ghost var l := ApiLecturer(body, db.lecturers, |db.lecturers| + 1);
      assert d == Lift(l, NewLecturerOf());
      var outcome := ApiRegisterLecturer(db, body);
      assert LecturerPart(d.insert) == l.insert.ToSeq() && StudentPart(d.insert) == [];
      return MessageGuard(outcome);
    }
    resp := Msg(400, "Invalid user type provided");
  }

  /** The lecturer branch of api/register.js against the store. */
  method ApiRegisterLecturer(db: Db, body: map<string, Value>) returns (outcome: Outcome)
    requires db.Valid()
    modifies db
    ensures db.Valid()
    ensures var d := ApiLecturer(body, old(db.lecturers), |old(db.lecturers)| + 1);
      outcome == d.outcome && db.lecturers == old(db.lecturers) + d.insert.ToSeq()
    ensures db.codes == old(db.codes) && db.records == old(db.records) && db.courses == old(db.courses)
    ensures db.students == old(db.students) && db.admins == old(db.admins)
  {
    if !LecturerFieldsGiven(LecturerFormOf(body)) {
      return Returned(Msg(400, LECTURER_FIELDS_REQUIRED));
    }
    outcome := InsertLecturerIfNew(db, LecturerFormOf(body),
      API_LECTURER_TAKEN, "Lecturer registered successfully!");
  }

  /**
   * `POST /api/register` of server.js against the store: the answer, or
   * None when the request is never answered.
   */
  method ServerRegistration(db: Db, body: map<string, Value>, file: Option<string>) returns (answer: Option<Response>)
    requires db.Valid()
    modifies db
    ensures db.Valid()
    ensures var d := ServerRegister(body, file, old(db.students));
      answer == Answer(d.outcome) && db.students == old(db.students) + d.insert.ToSeq()
    ensures db.codes == old(db.codes) && db.records == old(db.records) && db.courses == old(db.courses)
    ensures db.lecturers == old(db.lecturers) && db.admins == old(db.admins)
  {
    var userType := Get(body, "userType");
    if !Truthy(userType) {
      return Some(Msg(400, "userType is required"));
    }
    if userType != Str("student") && userType != Str("lecturer") {
      return Some(Msg(400, "Invalid user type"));
    }
    if userType == Str("lecturer") {
      return None;
    }
    var outcome := InsertStudentIfNew(db, StudentFormOf(body), file, "Student already exists", "Student registered successfully");
    if outcome.Threw? {
      return Some(Msg(500, STUDENT_DB_ERROR));
    }
    answer := Some(outcome.response);
  }

  /** `POST /api/register/lecturer` of server.js against the store. */
  method ServerRegisterLecturer(db: Db, body: map<string, Value>) returns (resp: Response)
    requires db.Valid()
    modifies db
    ensures db.Valid()
    ensures var d := ServerLecturer(body, old(db.lecturers), |old(db.lecturers)| + 1);
      resp == ExpressGuard(d.outcome) && db.lecturers == old(db.lecturers) + d.insert.ToSeq()
    ensures db.codes == old(db.codes) && db.records == old(db.records) && db.courses == old(db.courses)
    ensures db.students == old(db.students) && db.admins == old(db.admins)
  {
    var scan := BlankFields(body, SERVER_LECTURER_FIELDS);
    if scan.ScanFails? {
      return Response(500, ErrorPage);
    }
    if scan.missing != [] {
      return Response(400, MissingBody(scan.missing));
    }
    var outcome := InsertLecturerIfNew(db, LecturerFormOf(body), LECTURER_EXISTS, "Lecturer registered successfully");
    resp := ExpressGuard(outcome);
  }
}
