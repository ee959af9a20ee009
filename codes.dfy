/**
 * Issuing an attendance code: api/generate-code.js and the
 * `/api/generate-code` route of server.js. A lecturer's request inserts one
 * row into the code table, carrying a short random code, the course, the
 * lecturer's coordinates and an expiry ten minutes after the issue instant.
 */
module CodeIssue {
  import opened Wrappers
  import opened Js
  import opened Store
  import opened Http
  import opened Utils
  import opened Auth

  /** `INTERVAL 10 MINUTE`, in seconds. */
  const CODE_LIFETIME: int := 600

  /** The body fields both versions require. */
  const CODE_FIELDS: seq<string> := ["courseId", "lat", "lon"]

  predicate IsBase36Lower(c: char) {
    ('0' <= c <= '9') || ('a' <= c <= 'z')
  }

  /** The characters an issued code is made of. */
  predicate IsCodeChar(c: char) {
    ('0' <= c <= '9') || ('A' <= c <= 'Z')
  }

  /**
   * The text of `Math.random().toString(36)` for a value in [0, 1): "0", or
   * "0." followed by lower-case base-36 digits.
   */
  predicate IsRandomText(raw: string) {
    raw == "0"
    || (|raw| >= 3 && raw[..2] == "0." && forall i :: 2 <= i < |raw| ==> IsBase36Lower(raw[i]))
  }

  /** `.substring(2, 8).toUpperCase()`: up to six upper-case base-36 characters. */
  function CodeFromRandom(raw: string): (code: string)
    requires IsRandomText(raw)
    ensures |code| <= 6
    ensures |raw| >= 8 ==> |code| == 6
    ensures forall i :: 0 <= i < |code| ==> IsCodeChar(code[i])
  {
    var digits := Substring(raw, 2, 8);
    assert |raw| >= 3 ==> digits == raw[2..if |raw| < 8 then |raw| else 8];
    ToUpper(digits)
  }

  /** The foreign key of `course_id`: some course has this id. */
  predicate CourseExists(courses: seq<CourseRow>, id: int) {
    exists i :: 0 <= i < |courses| && courses[i].id == id
  }

  /**
   * The parsed id and coordinates can be written into the statement:
   * `NaN` and the infinities are spliced into the SQL text as bare words,
   * which the store rejects as unknown columns.
   */
  predicate Storable(courseNum: Option<int>, lat: Number, lon: Number) {
    courseNum.Some? && lat.Finite? && lon.Finite?
  }

  /** The row a successful request inserts. */
  function IssuedRow(nextId: int, raw: string, courseNum: int, lat: real, lon: real, now: int): (row: CodeRow)
    requires IsRandomText(raw)
    ensures row.expiresAt == now + CODE_LIFETIME
    ensures row.code == CodeFromRandom(raw) && row.courseId == courseNum
  {
    CodeRow(nextId, CodeFromRandom(raw), courseNum, lat, lon, now + CODE_LIFETIME)
  }

  /**
   * The handler of api/generate-code.js. `courseNum` is `parseInt(courseId)`
   * (None for NaN), `lat` and `lon` are `parseFloat` of the body fields,
   * `raw` is the random text, `now` is `UTC_TIMESTAMP()` and `nextId` the id
   * the store assigns.
   */
  function Issue(verb: string, user: Claims, body: map<string, Value>, courseNum: Option<int>,
                 lat: Number, lon: Number, raw: string, now: int,
                 courses: seq<CourseRow>, nextId: int): (d: Decision<CodeRow>)
    requires IsRandomText(raw)
    ensures d.insert.Some? ==>
      && Storable(courseNum, lat, lon)
      && d.insert.value == IssuedRow(nextId, raw, courseNum.value, lat.r, lon.r, now)
      && d.outcome == Returned(Response(200, CodeIssued(d.insert.value.code, None, "Code generated successfully")))
    ensures d.insert.Some? <==>
      && verb == "POST" && user.userType == Str("lecturer")
      && ValidationError(body, CODE_FIELDS).None?
      && Storable(courseNum, lat, lon) && CourseExists(courses, courseNum.value)
    ensures d.outcome.Returned? && d.insert.None? ==> d.outcome.response.status in {400, 403, 405}
  {
    if verb != "POST" then Reply(Msg(405, "Method Not Allowed"))
    else if user.userType != Str("lecturer") then Reply(Msg(403, "Access denied"))
    else if ValidationError(body, CODE_FIELDS).Some? then Reply(Msg(400, ValidationError(body, CODE_FIELDS).value))
    else if !Storable(courseNum, lat, lon) then Throw(StoreError("ER_BAD_FIELD_ERROR"))
    else if !CourseExists(courses, courseNum.value) then Throw(StoreError("ER_NO_REFERENCED_ROW_2"))
    else
      var row := IssuedRow(nextId, raw, courseNum.value, lat.r, lon.r, now);
      Decision(Returned(Response(200, CodeIssued(row.code, None, "Code generated successfully"))), Some(row))
  }

  /** The handler as it runs against the store: at most one row is appended to the code table. */
  method IssueCode(db: Db, verb: string, user: Claims, body: map<string, Value>, courseNum: Option<int>,
                   lat: Number, lon: Number, raw: string, now: int) returns (resp: Response)
    requires db.Valid() && IsRandomText(raw)
    modifies db
    ensures db.Valid()
    ensures var d := Issue(verb, user, body, courseNum, lat, lon, raw, now, old(db.courses), |old(db.codes)| + 1);
      resp == GenericGuard(d.outcome) && db.codes == old(db.codes) + d.insert.ToSeq()
    ensures db.records == old(db.records) && db.courses == old(db.courses) && db.students == old(db.students)
    ensures db.lecturers == old(db.lecturers) && db.admins == old(db.admins)
  {
    ghost var d := Issue(verb, user, body, courseNum, lat, lon, raw, now, db.courses, |db.codes| + 1);
    if verb != "POST" {
      assert d == Reply(Msg(405, "Method Not Allowed"));
      return Msg(405, "Method Not Allowed");
    }
    if user.userType != Str("lecturer") {
      assert d == Reply(Msg(403, "Access denied"));
      return Msg(403, "Access denied");
    }
    var validationError := ValidateInput(body, CODE_FIELDS);
    if validationError.Some? {
      assert d == Reply(Msg(400, validationError.value));
      return Msg(400, validationError.value);
    }
    if !Storable(courseNum, lat, lon) {
      assert d == Throw(StoreError("ER_BAD_FIELD_ERROR"));
      return GenericGuard(Threw(StoreError("ER_BAD_FIELD_ERROR")));
    }
    if !CourseExists(db.courses, courseNum.value) {
      assert d == Throw(StoreError("ER_NO_REFERENCED_ROW_2"));
      return GenericGuard(Threw(StoreError("ER_NO_REFERENCED_ROW_2")));
    }
    var row := IssuedRow(|db.codes| + 1, raw, courseNum.value, lat.r, lon.r, now);
    assert d.insert == Some(row);
    db.InsertCode(row);
    resp := Response(200, CodeIssued(row.code, None, "Code generated successfully"));
  }

  /** A request other than POST is refused first, and a non-lecturer next; neither inserts. */
  lemma IssueGates(verb: string, user: Claims, body: map<string, Value>, courseNum: Option<int>,
                   lat: Number, lon: Number, raw: string, now: int, courses: seq<CourseRow>, nextId: int)
    requires IsRandomText(raw)
    ensures verb != "POST" ==>
      Issue(verb, user, body, courseNum, lat, lon, raw, now, courses, nextId) == Reply(Msg(405, "Method Not Allowed"))
    ensures verb == "POST" && user.userType != Str("lecturer") ==>
      Issue(verb, user, body, courseNum, lat, lon, raw, now, courses, nextId) == Reply(Msg(403, "Access denied"))
  {
  }

  /** A missing or blank field gives 400 with the first missing field's message, and nothing is inserted. */
  lemma IssueMissingField(user: Claims, body: map<string, Value>, courseNum: Option<int>,
                          lat: Number, lon: Number, raw: string, now: int, courses: seq<CourseRow>, nextId: int,
                          k: nat)
    requires IsRandomText(raw) && user.userType == Str("lecturer")
    requires k < |CODE_FIELDS| && Missing(Get(body, CODE_FIELDS[k]))
    requires forall i :: 0 <= i < k ==> !Missing(Get(body, CODE_FIELDS[i]))
    ensures Issue("POST", user, body, courseNum, lat, lon, raw, now, courses, nextId)
      == Reply(Msg(400, CODE_FIELDS[k] + " is required"))
  {
    assert FirstFailing(body, CODE_FIELDS, Missing) == Some(k) by {
      Seqs.FirstIndexUnique(CODE_FIELDS, (f: string) => Missing(Get(body, f)), k);
    }
    assert ValidationError(body, CODE_FIELDS) == Some(CODE_FIELDS[k] + " is required");
  }

  /**
   * Neither the caller's id nor any existing code is consulted: two
   * lecturers asking for the same course get the same decision, whoever
   * owns the course.
   */
  lemma IssueIgnoresOwnership(u1: Claims, u2: Claims, body: map<string, Value>, courseNum: Option<int>,
                              lat: Number, lon: Number, raw: string, now: int, courses: seq<CourseRow>, nextId: int)
    requires IsRandomText(raw)
    requires u1.userType == u2.userType == Str("lecturer")
    ensures Issue("POST", u1, body, courseNum, lat, lon, raw, now, courses, nextId)
      == Issue("POST", u2, body, courseNum, lat, lon, raw, now, courses, nextId)
  {
  }

  /** The `/api/generate-code` route of server.js; its `try` turns every store failure into a response. */
  function ServerIssue(user: Claims, body: map<string, Value>, courseNum: Option<int>,
                       lat: Number, lon: Number, raw: string, now: int,
                       courses: seq<CourseRow>, nextId: int): (d: Decision<CodeRow>)
    requires IsRandomText(raw)
    ensures d.outcome.Returned?
    ensures d.insert.Some? ==>
      && Storable(courseNum, lat, lon)
      && d.insert.value == IssuedRow(nextId, raw, courseNum.value, lat.r, lon.r, now)
      && d.outcome.response == Response(200, CodeIssued(d.insert.value.code, Some(now + CODE_LIFETIME),
                                                       "Attendance code generated successfully"))
    ensures d.insert.Some? <==>
      && user.userType == Str("lecturer")
      && ValidationError(body, CODE_FIELDS).None?
      && Storable(courseNum, lat, lon) && CourseExists(courses, courseNum.value)
    ensures (user.userType == Str("lecturer") && ValidationError(body, CODE_FIELDS).None?
      && Storable(courseNum, lat, lon) && !CourseExists(courses, courseNum.value)) ==>
      d.outcome.response == Msg(400, "Invalid course ID. Course does not exist.")
  {
    if user.userType != Str("lecturer") then Reply(Msg(403, "Access denied: Lecturers only"))
    else if ValidationError(body, CODE_FIELDS).Some? then Reply(Msg(400, ValidationError(body, CODE_FIELDS).value))
    else if !Storable(courseNum, lat, lon) then Reply(Msg(500, "Database error during code generation"))
    else if !CourseExists(courses, courseNum.value) then Reply(Msg(400, "Invalid course ID. Course does not exist."))
    else
      var row := IssuedRow(nextId, raw, courseNum.value, lat.r, lon.r, now);
      Decision(Returned(Response(200, CodeIssued(row.code, Some(row.expiresAt), "Attendance code generated successfully"))),
               Some(row))
  }

  method ServerIssueCode(db: Db, user: Claims, body: map<string, Value>, courseNum: Option<int>,
                         lat: Number, lon: Number, raw: string, now: int) returns (resp: Response)
    requires db.Valid() && IsRandomText(raw)
    modifies db
    ensures db.Valid()
    ensures var d := ServerIssue(user, body, courseNum, lat, lon, raw, now, old(db.courses), |old(db.codes)| + 1);
      resp == ExpressGuard(d.outcome) && db.codes == old(db.codes) + d.insert.ToSeq()
    ensures db.records == old(db.records) && db.courses == old(db.courses) && db.students == old(db.students)
    ensures db.lecturers == old(db.lecturers) && db.admins == old(db.admins)
  {
    ghost var d := ServerIssue(user, body, courseNum, lat, lon, raw, now, db.courses, |db.codes| + 1);
    if user.userType != Str("lecturer") {
      return Msg(403, "Access denied: Lecturers only");
    }
    var validationError := ValidateInput(body, CODE_FIELDS);
    if validationError.Some? {
      return Msg(400, validationError.value);
    }
    var code := CodeFromRandom(raw);
    if !Storable(courseNum, lat, lon) {
      return Msg(500, "Database error during code generation");
    }
    if !CourseExists(db.courses, courseNum.value) {
      return Msg(400, "Invalid course ID. Course does not exist.");
    }
    var expiresAt := now + CODE_LIFETIME;
    var row := CodeRow(|db.codes| + 1, code, courseNum.value, lat.r, lon.r, expiresAt);
    assert d.insert == Some(row);
    db.InsertCode(row);
    resp := Response(200, CodeIssued(code, Some(expiresAt), "Attendance code generated successfully"));
  }

  /** Both versions insert the same row for the same request; they differ only in the reply. */
  lemma IssueVersionsAgreeOnRow(user: Claims, body: map<string, Value>, courseNum: Option<int>,
                                lat: Number, lon: Number, raw: string, now: int, courses: seq<CourseRow>, nextId: int)
    requires IsRandomText(raw)
    ensures Issue("POST", user, body, courseNum, lat, lon, raw, now, courses, nextId).insert
      == ServerIssue(user, body, courseNum, lat, lon, raw, now, courses, nextId).insert
  {
  }
}
