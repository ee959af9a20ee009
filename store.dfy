/**
 * The relational store the handlers query: one table per entity, each a
 * sequence of rows in insertion order, and the read-side views the
 * reporting queries return.
 */
module Store {
  import opened Wrappers
  import opened Js

  const SECONDS_PER_DAY: int := 86400

  /**
   * `DATE(t)` of an instant `t` (seconds since the epoch, UTC) read in a zone
   * `offset` seconds ahead of UTC: the day number, counted from the epoch.
   */
  function DayOf(t: int, offset: int): (d: int)
    ensures d * SECONDS_PER_DAY <= t + offset < (d + 1) * SECONDS_PER_DAY
  {
    (t + offset) / SECONDS_PER_DAY
  }

  /** attendance_codes: an issued code, the issuer's position and its expiry instant. */
  datatype CodeRow = CodeRow(id: int, code: string, courseId: int, lat: real, lon: real, expiresAt: int)

  /** attendance_records: the ledger. */
  datatype RecordRow = RecordRow(id: int, studentId: int, courseId: int, markedAt: int)

  /** courses: `lecturerId` is the owning lecturer's row id. */
  datatype CourseRow = CourseRow(id: int, code: string, title: string, lecturerId: int)

  /** students: `face` is the stored reference image (Base64 text or an upload path). */
  datatype StudentRow = StudentRow(id: int, matNo: string, name: string, email: string, phone: string, face: string)

  /**
   * The bcrypt digest of a password, as a free constructor: two passwords
   * have the same digest only when they are equal, and comparing a
   * candidate with a stored digest succeeds exactly on the password that
   * was hashed. The salt is not modelled.
   */
  datatype Digest = Hashed(password: string)

  /** lecturers: `staffId` is the `lecturer_id` column, distinct from the row id. */
  datatype LecturerRow = LecturerRow(id: int, staffId: string, name: string, email: string, phone: string, passwordHash: Digest)

  /** admins: created outside the application. */
  datatype AdminRow = AdminRow(id: int, name: string, email: string, passwordHash: Digest)

  /** The listing of `GET /api/courses` in api/courses/index.js. */
  datatype CourseSummary = CourseSummary(id: int, code: string, title: string)

  /** One row of the per-day session report. */
  datatype Session = Session(date: int, total: nat, start: int, end: int, courseCode: string, courseTitle: string)

  /** One row of the per-course attendance listing. */
  datatype RecordView = RecordView(
    id: int, markedAt: int, studentName: string, matNo: string, studentId: int,
    courseId: int, courseCode: string, courseTitle: string, date: int)

  /** The per-course statistics; the two dates are NULL when there is no record. */
  datatype Stats = Stats(
    uniqueStudents: nat, totalRecords: nat, totalSessions: nat,
    firstSession: Option<int>, latestSession: Option<int>)

  /** The user object of the serverless student login. */
  datatype StudentSummary = StudentSummary(id: int, name: string, matNo: string)

  /** A student row without its reference image. */
  datatype StudentView = StudentView(id: int, matNo: string, name: string, email: string, phone: string)

  /** A lecturer or admin row without its password hash. */
  datatype UserView =
    | LecturerView(id: int, staffId: string, name: string, email: string, phone: string)
    | AdminView(id: int, name: string, email: string)

  /** AUTO_INCREMENT ids with no deletions: the row at position i has id i + 1. */
  predicate IdsSerial<R>(t: seq<R>, id: R -> int) {
    forall i :: 0 <= i < |t| ==> id(t[i]) == i + 1
  }

  /** Serial ids are unique: two rows with the same id are the same row. */
  lemma SerialIdsUnique<R>(t: seq<R>, id: R -> int, i: int, j: int)
    requires IdsSerial(t, id)
    requires 0 <= i < |t| && 0 <= j < |t| && id(t[i]) == id(t[j])
    ensures i == j
  {
  }

  class Db {
    var codes: seq<CodeRow>
    var records: seq<RecordRow>
    var courses: seq<CourseRow>
    var students: seq<StudentRow>
    var lecturers: seq<LecturerRow>
    var admins: seq<AdminRow>

    ghost predicate Valid()
      reads this
    {
      && IdsSerial(codes, (r: CodeRow) => r.id)
      && IdsSerial(records, (r: RecordRow) => r.id)
      && IdsSerial(courses, (r: CourseRow) => r.id)
      && IdsSerial(students, (r: StudentRow) => r.id)
      && IdsSerial(lecturers, (r: LecturerRow) => r.id)
      && IdsSerial(admins, (r: AdminRow) => r.id)
    }

    constructor (admins: seq<AdminRow>)
      requires IdsSerial(admins, (r: AdminRow) => r.id)
      ensures Valid()
      ensures codes == [] && records == [] && courses == [] && students == [] && lecturers == []
      ensures this.admins == admins
    {
      codes, records, courses, students, lecturers := [], [], [], [], [];
      this.admins := admins;
    }

    method InsertCode(row: CodeRow)
      requires Valid() && row.id == |codes| + 1
      modifies this
      ensures Valid()
      ensures codes == old(codes) + [row]
      ensures records == old(records) && courses == old(courses) && students == old(students)
      ensures lecturers == old(lecturers) && admins == old(admins)
    {
      codes := codes + [row];
    }

    method InsertRecord(row: RecordRow)
      requires Valid() && row.id == |records| + 1
      modifies this
      ensures Valid()
      ensures records == old(records) + [row]
      ensures codes == old(codes) && courses == old(courses) && students == old(students)
      ensures lecturers == old(lecturers) && admins == old(admins)
    {
      records := records + [row];
    }

    method InsertCourse(row: CourseRow)
      requires Valid() && row.id == |courses| + 1
      modifies this
      ensures Valid()
      ensures courses == old(courses) + [row]
      ensures codes == old(codes) && records == old(records) && students == old(students)
      ensures lecturers == old(lecturers) && admins == old(admins)
    {
      courses := courses + [row];
    }

    method InsertStudent(row: StudentRow)
      requires Valid() && row.id == |students| + 1
      modifies this
      ensures Valid()
      ensures students == old(students) + [row]
      ensures codes == old(codes) && records == old(records) && courses == old(courses)
      ensures lecturers == old(lecturers) && admins == old(admins)
    {
      students := students + [row];
    }

    method InsertLecturer(row: LecturerRow)
      requires Valid() && row.id == |lecturers| + 1
      modifies this
      ensures Valid()
      ensures lecturers == old(lecturers) + [row]
      ensures codes == old(codes) && records == old(records) && courses == old(courses)
      ensures students == old(students) && admins == old(admins)
    {
      lecturers := lecturers + [row];
    }
  }
}
