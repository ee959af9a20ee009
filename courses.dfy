/**
 * Course management: a lecturer creates courses, unique per lecturer by
 * their trimmed code, and lists their own courses ordered by code
 * (api/courses/index.js, and the two `/api/courses` routes of server.js).
 */
module Courses {
  import opened Wrappers
  import opened Js
  import opened Seqs
  import opened Sorting
  import opened Store
  import opened Http
  import opened Utils
  import opened Auth

  const COURSE_FIELDS: seq<string> := ["courseCode", "courseTitle"]

  /** The dedup query: a course of this lecturer already carries this code. */
  predicate CodeTaken(courses: seq<CourseRow>, code: string, lecturerId: int) {
    exists i :: 0 <= i < |courses| && courses[i].code == code && courses[i].lecturerId == lecturerId
  }

  /** The table invariant the create handlers keep: no lecturer has two courses with the same code. */
  predicate CodesUniquePerLecturer(courses: seq<CourseRow>) {
    forall i, j :: 0 <= i < j < |courses| && courses[i].lecturerId == courses[j].lecturerId ==>
      courses[i].code != courses[j].code
  }

  /**
   * The POST branch once the caller is known to be a lecturer: validation,
   * then `courseCode.trim()` for the dedup query, then `courseTitle.trim()`
   * for the insert. A field that passed validation without being a string
   * (a number, `true`) makes its `trim` call throw.
   */
  function CreateCourse(user: Claims, body: map<string, Value>, courses: seq<CourseRow>, nextId: int)
    : (d: Decision<CourseRow>)
    ensures ValidationError(body, COURSE_FIELDS).Some? ==>
      d == Reply(Msg(400, ValidationError(body, COURSE_FIELDS).value))
    ensures d.insert.Some? <==>
      && ValidationError(body, COURSE_FIELDS).None?
      && Get(body, "courseCode").Str? && Get(body, "courseTitle").Str?
      && !CodeTaken(courses, Trim(Get(body, "courseCode").s), user.id)
    ensures d.insert.Some? ==>
      && d.insert.value == CourseRow(nextId, Trim(Get(body, "courseCode").s), Trim(Get(body, "courseTitle").s), user.id)
      && d.outcome == Returned(Msg(201, "Course created successfully"))
    ensures (ValidationError(body, COURSE_FIELDS).None? && Get(body, "courseCode").Str?
      && CodeTaken(courses, Trim(Get(body, "courseCode").s), user.id)) ==>
      d == Reply(Msg(409, "Course with this code already exists"))
    ensures d.outcome.Threw? <==>
      && ValidationError(body, COURSE_FIELDS).None?
      && (!Get(body, "courseCode").Str?
        || (!CodeTaken(courses, Trim(Get(body, "courseCode").s), user.id) && !Get(body, "courseTitle").Str?))
  {
    if ValidationError(body, COURSE_FIELDS).Some? then Reply(Msg(400, ValidationError(body, COURSE_FIELDS).value))
    else
      match TrimValue(Get(body, "courseCode"), "courseCode")
      case TrimFails(e) => Throw(e)
      case Trimmed(code) =>
        if CodeTaken(courses, code, user.id) then Reply(Msg(409, "Course with this code already exists"))
        else
          match TrimValue(Get(body, "courseTitle"), "courseTitle")
          case TrimFails(e) => Throw(e)
          case Trimmed(title) =>
            Decision(Returned(Msg(201, "Course created successfully")), Some(CourseRow(nextId, code, title, user.id)))
  }

  /** The courses a lecturer owns, in table order. */
  function Owned(courses: seq<CourseRow>, lecturerId: int): (r: seq<CourseRow>)
    ensures forall i :: 0 <= i < |r| ==> r[i] in courses && r[i].lecturerId == lecturerId
    ensures forall i :: 0 <= i < |courses| && courses[i].lecturerId == lecturerId ==> courses[i] in r
  {
    Filter(courses, (c: CourseRow) => c.lecturerId == lecturerId)
  }

  /**
   * The listing keeps table order: it is empty for an empty table, and a
   * course appended to the table is appended to its owner's listing and to
   * no other.
   */
  lemma OwnedSnoc(courses: seq<CourseRow>, c: CourseRow, lecturerId: int)
    ensures Owned([], lecturerId) == []
    ensures Owned(courses + [c], lecturerId) ==
      Owned(courses, lecturerId) + (if c.lecturerId == lecturerId then [c] else [])
  {
    FilterSnoc(courses, c, (x: CourseRow) => x.lecturerId == lecturerId);
  }

  /** `ORDER BY course_code ASC`. */
  function ByCode(): (CourseRow, CourseRow) -> bool {
    (x: CourseRow, y: CourseRow) => LexLe(x.code, y.code)
  }

  lemma ByCodeTotalPreorder()
    ensures TotalPreorder(ByCode())
  {
    forall x: CourseRow, y: CourseRow ensures ByCode()(x, y) || ByCode()(y, x) {
      LexLeTotal(x.code, y.code);
    }
    forall x: CourseRow, y: CourseRow, z: CourseRow | ByCode()(x, y) && ByCode()(y, z)
      ensures ByCode()(x, z)
    {
      LexLeTransitive(x.code, y.code, z.code);
    }
  }

  /** A lecturer's courses ordered by code. */
  function OwnedByCode(courses: seq<CourseRow>, lecturerId: int): seq<CourseRow> {
    SortBy(Owned(courses, lecturerId), ByCode())
  }

  function Summarize(rows: seq<CourseRow>): (r: seq<CourseSummary>)
    ensures |r| == |rows|
    ensures forall i :: 0 <= i < |rows| ==> r[i] == CourseSummary(rows[i].id, rows[i].code, rows[i].title)
  {
    if rows == [] then [] else [CourseSummary(rows[0].id, rows[0].code, rows[0].title)] + Summarize(rows[1..])
  }

  /**
   * The listing holds exactly the caller's courses, each once per row,
   * in ascending code order.
   */
  lemma OwnedByCodeIsSortedListing(courses: seq<CourseRow>, lecturerId: int)
    ensures Sorted(OwnedByCode(courses, lecturerId), ByCode())
    ensures multiset(OwnedByCode(courses, lecturerId)) == multiset(Owned(courses, lecturerId))
    ensures forall c :: c in OwnedByCode(courses, lecturerId) <==> c in courses && c.lecturerId == lecturerId
  {
    ByCodeTotalPreorder();
    SortBySorted(Owned(courses, lecturerId), ByCode());
    var owned := Owned(courses, lecturerId);
    var listed := OwnedByCode(courses, lecturerId);
    forall c ensures c in listed <==> c in courses && c.lecturerId == lecturerId {
      calc {
        c in listed;
        c in multiset(listed);
        c in multiset(owned);
        c in owned;
      }
      if c in courses && c.lecturerId == lecturerId {
        var i :| 0 <= i < |courses| && courses[i] == c;
        assert courses[i] in owned;
      }
    }
  }

  /**
   * The handler of api/courses/index.js: the role gate comes before the
   * method dispatch, so a non-lecturer gets 403 whatever the method.
   */
  function CoursesApi(verb: string, user: Claims, body: map<string, Value>, courses: seq<CourseRow>, nextId: int)
    : (d: Decision<CourseRow>)
    ensures user.userType != Str("lecturer") ==> d == Reply(Msg(403, "Access denied: Lecturers only"))
    ensures user.userType == Str("lecturer") && verb == "POST" ==> d == CreateCourse(user, body, courses, nextId)
    ensures user.userType == Str("lecturer") && verb == "GET" ==>
      d == Reply(Response(200, CourseSummaries(Summarize(OwnedByCode(courses, user.id)))))
    ensures user.userType == Str("lecturer") && verb != "POST" && verb != "GET" ==>
      d == Reply(Msg(405, "Method " + verb + " Not Allowed"))
  {
    if user.userType != Str("lecturer") then Reply(Msg(403, "Access denied: Lecturers only"))
    else if verb == "POST" then CreateCourse(user, body, courses, nextId)
    else if verb == "GET" then Reply(Response(200, CourseSummaries(Summarize(OwnedByCode(courses, user.id)))))
    else Reply(Msg(405, "Method " + verb + " Not Allowed"))
  }

  /**
   * The create step against the store: validate, dedup on the trimmed code
   * and the caller's id, insert. Shared by both deployments.
   */
  method InsertCourseIfNew(db: Db, user: Claims, body: map<string, Value>) returns (outcome: Outcome)
    requires db.Valid()
    modifies db
    ensures db.Valid()
    ensures var d := CreateCourse(user, body, old(db.courses), |old(db.courses)| + 1);
      outcome == d.outcome && db.courses == old(db.courses) + d.insert.ToSeq()
    ensures db.codes == old(db.codes) && db.records == old(db.records) && db.students == old(db.students)
    ensures db.lecturers == old(db.lecturers) && db.admins == old(db.admins)
  {
    ghost var d := CreateCourse(user, body, db.courses, |db.courses| + 1);
    var validationError := ValidateInput(body, COURSE_FIELDS);
    if validationError.Some? {
      return Returned(Msg(400, validationError.value));
    }
    var code := TrimValue(Get(body, "courseCode"), "courseCode");
    if code.TrimFails? {
      assert d == Throw(code.error);
      return Threw(code.error);
    }
    if CodeTaken(db.courses, code.s, user.id) {
      assert d == Reply(Msg(409, "Course with this code already exists"));
      return Returned(Msg(409, "Course with this code already exists"));
    }
    var title := TrimValue(Get(body, "courseTitle"), "courseTitle");
    if title.TrimFails? {
      assert d == Throw(title.error);
      return Threw(title.error);
    }
    var row := CourseRow(|db.courses| + 1, code.s, title.s, user.id);
    assert d.insert == Some(row);
    db.InsertCourse(row);
    outcome := Returned(Msg(201, "Course created successfully"));
  }

  /** The serverless route: only the course table can change, by the decided row. */
  method CoursesHandler(db: Db, verb: string, user: Claims, body: map<string, Value>) returns (resp: Response)
    requires db.Valid()
    modifies db
    ensures db.Valid()
    ensures var d := CoursesApi(verb, user, body, old(db.courses), |old(db.courses)| + 1);
      resp == GenericGuard(d.outcome) && db.courses == old(db.courses) + d.insert.ToSeq()
    ensures db.codes == old(db.codes) && db.records == old(db.records) && db.students == old(db.students)
    ensures db.lecturers == old(db.lecturers) && db.admins == old(db.admins)
  {
    if user.userType != Str("lecturer") {
      return Msg(403, "Access denied: Lecturers only");
    }
    if verb == "POST" {
      var outcome := InsertCourseIfNew(db, user, body);
      return GenericGuard(outcome);
    }
    if verb == "GET" {
      return Response(200, CourseSummaries(Summarize(OwnedByCode(db.courses, user.id))));
    }
    resp := Msg(405, "Method " + verb + " Not Allowed");
  }

  /** Any rejection inside the `try` of the server's create route. */
  const COURSE_CREATE_FAILED: string := "Database error during course creation"

  /** `POST /api/courses` of server.js: the same steps, with rejections answered inside the route. */
  function ServerCreate(user: Claims, body: map<string, Value>, courses: seq<CourseRow>, nextId: int)
    : (d: Decision<CourseRow>)
    ensures d.outcome.Returned?
    ensures user.userType != Str("lecturer") ==> d == Reply(Msg(403, "Access denied: Lecturers only"))
    ensures user.userType == Str("lecturer") ==>
      d.insert == CreateCourse(user, body, courses, nextId).insert
    ensures user.userType == Str("lecturer") && CreateCourse(user, body, courses, nextId).outcome.Threw? ==>
      d.outcome.response == Msg(500, COURSE_CREATE_FAILED)
  {
    if user.userType != Str("lecturer") then Reply(Msg(403, "Access denied: Lecturers only"))
    else
      var d := CreateCourse(user, body, courses, nextId);
      match d.outcome
      case Threw(_) => Reply(Msg(500, COURSE_CREATE_FAILED))
      case Returned(_) => d
  }

  method ServerCreateCourse(db: Db, user: Claims, body: map<string, Value>) returns (resp: Response)
    requires db.Valid()
    modifies db
    ensures db.Valid()
    ensures var d := ServerCreate(user, body, old(db.courses), |old(db.courses)| + 1);
      resp == d.outcome.response && db.courses == old(db.courses) + d.insert.ToSeq()
    ensures db.codes == old(db.codes) && db.records == old(db.records) && db.students == old(db.students)
    ensures db.lecturers == old(db.lecturers) && db.admins == old(db.admins)
  {
    if user.userType != Str("lecturer") {
      return Msg(403, "Access denied: Lecturers only");
    }
    var outcome := InsertCourseIfNew(db, user, body);
    if outcome.Threw? {
      return Msg(500, COURSE_CREATE_FAILED);
    }
    resp := outcome.response;
  }

  /** `GET /api/courses` of server.js: whole rows, ordered by code. */
  function ServerListCourses(user: Claims, courses: seq<CourseRow>): (r: Response)
    ensures user.userType != Str("lecturer") ==> r == Msg(403, "Access denied: Lecturers only")
    ensures user.userType == Str("lecturer") ==>
      && r.status == 200 && r.body.CourseRows?
      && Sorted(r.body.rows, ByCode())
      && multiset(r.body.rows) == multiset(Owned(courses, user.id))
  {
    OwnedByCodeIsSortedListing(courses, user.id);
    if user.userType != Str("lecturer") then Msg(403, "Access denied: Lecturers only")
    else Response(200, CourseRows(OwnedByCode(courses, user.id)))
  }

  /** The dedup query on a table grown by one row matches the old rows or the new one. */
  lemma CodeTakenAppend(courses: seq<CourseRow>, row: CourseRow, code: string, lecturerId: int)
    ensures CodeTaken(courses + [row], code, lecturerId) <==>
      CodeTaken(courses, code, lecturerId) || (row.code == code && row.lecturerId == lecturerId)
  {
    var rs := courses + [row];
    if CodeTaken(rs, code, lecturerId) {
      var i :| 0 <= i < |rs| && rs[i].code == code && rs[i].lecturerId == lecturerId;
      if i < |courses| {
        assert courses[i] == rs[i];
      }
    }
    if CodeTaken(courses, code, lecturerId) {
      var i :| 0 <= i < |courses| && courses[i].code == code && courses[i].lecturerId == lecturerId;
      assert rs[i] == courses[i];
    }
    assert rs[|courses|] == row;
  }

  /** Appending a course whose code its lecturer does not hold yet keeps codes unique. */
  lemma AppendKeepsCodesUnique(courses: seq<CourseRow>, row: CourseRow)
    requires CodesUniquePerLecturer(courses)
    requires !CodeTaken(courses, row.code, row.lecturerId)
    ensures CodesUniquePerLecturer(courses + [row])
  {
    var rs := courses + [row];
    forall i, j | 0 <= i < j < |rs| && rs[i].lecturerId == rs[j].lecturerId
      ensures rs[i].code != rs[j].code
    {
      if j == |courses| {
        assert rs[i] == courses[i];
      }
    }
  }

  /** Creating keeps the per-lecturer uniqueness of codes. */
  lemma CreateKeepsCodesUnique(user: Claims, body: map<string, Value>, courses: seq<CourseRow>, nextId: int)
    requires CodesUniquePerLecturer(courses)
    ensures CodesUniquePerLecturer(courses + CreateCourse(user, body, courses, nextId).insert.ToSeq())
  {
    var d := CreateCourse(user, body, courses, nextId);
    if d.insert.Some? {
      AppendKeepsCodesUnique(courses, d.insert.value);
    }
  }

  /** Sending the same successful request again answers 409 and inserts nothing. */
  lemma CreateTwiceConflicts(user: Claims, body: map<string, Value>, courses: seq<CourseRow>, nextId: int)
    requires CreateCourse(user, body, courses, nextId).insert.Some?
    ensures var row := CreateCourse(user, body, courses, nextId).insert.value;
      CreateCourse(user, body, courses + [row], nextId + 1) == Reply(Msg(409, "Course with this code already exists"))
  {
    var row := CreateCourse(user, body, courses, nextId).insert.value;
    CodeTakenAppend(courses, row, Trim(Get(body, "courseCode").s), user.id);
  }

  /** The code is unique per lecturer only: another lecturer's course with the same code does not block. */
  lemma CodeReusableByAnotherLecturer(user: Claims, body: map<string, Value>, courses: seq<CourseRow>, nextId: int,
                                      other: CourseRow)
    requires ValidationError(body, COURSE_FIELDS).None?
    requires Get(body, "courseCode").Str? && Get(body, "courseTitle").Str?
    requires !CodeTaken(courses, Trim(Get(body, "courseCode").s), user.id)
    requires other.lecturerId != user.id
    ensures CreateCourse(user, body, courses + [other], nextId).insert.Some?
  {
    CodeTakenAppend(courses, other, Trim(Get(body, "courseCode").s), user.id);
  }

  /** Both deployments insert the same row for the same request, and answer alike when nothing throws. */
  lemma CreateVersionsAgree(user: Claims, body: map<string, Value>, courses: seq<CourseRow>, nextId: int)
    ensures ServerCreate(user, body, courses, nextId).insert
      == CoursesApi("POST", user, body, courses, nextId).insert
    ensures CoursesApi("POST", user, body, courses, nextId).outcome.Returned? ==>
      ServerCreate(user, body, courses, nextId) == CoursesApi("POST", user, body, courses, nextId)
  {
  }
}
