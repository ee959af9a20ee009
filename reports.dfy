/**
 * The lecturer's reports over the attendance ledger: the per-day sessions
 * of a course (`GROUP BY DATE(marked_at)`), the course statistics, and the
 * per-course and per-day record listings (api/courses/sessions.js,
 * api/courses/[courseId]/stats.js, and the matching routes of server.js).
 * Record dates are read at UTC, the store's session zone in server.js.
 */
module Reports {
  import opened Wrappers
  import opened Seqs
  import opened Sorting
  import opened Store
  import opened Http
  import opened Auth
  import opened Js

  function Min(a: int, b: int): int { if a <= b then a else b }
  function Max(a: int, b: int): int { if a >= b then a else b }

  /** `DATE(marked_at)` of a record. */
  function Day(r: RecordRow): int {
    DayOf(r.markedAt, 0)
  }

  function OfCourse(courseNum: int): RecordRow -> bool {
    (r: RecordRow) => r.courseId == courseNum
  }

  function OnDay(day: int): RecordRow -> bool {
    (r: RecordRow) => Day(r) == day
  }

  /** `WHERE ar.course_id = ?`, in table order. */
  function CourseRecords(records: seq<RecordRow>, courseNum: int): (rs: seq<RecordRow>)
    ensures forall i :: 0 <= i < |rs| ==> rs[i] in records && rs[i].courseId == courseNum
    ensures forall i :: 0 <= i < |records| && records[i].courseId == courseNum ==> records[i] in rs
  {
    Filter(records, OfCourse(courseNum))
  }

  /** The records dated `day`. */
  function RecordsOn(rs: seq<RecordRow>, day: int): (on: seq<RecordRow>)
    ensures forall i :: 0 <= i < |on| ==> on[i] in rs && Day(on[i]) == day
    ensures forall i :: 0 <= i < |rs| && Day(rs[i]) == day ==> rs[i] in on
  {
    Filter(rs, OnDay(day))
  }

  function Instant(r: RecordRow): int {
    r.markedAt
  }

  /** `MIN(key)` over a non-empty set of rows. */
  function Least(rs: seq<RecordRow>, key: RecordRow -> int): (m: int)
    requires rs != []
    ensures forall i :: 0 <= i < |rs| ==> m <= key(rs[i])
    ensures exists i :: 0 <= i < |rs| && key(rs[i]) == m
  {
    if |rs| == 1 then key(rs[0])
    else
      var init := rs[..|rs| - 1];
      assert forall i :: 0 <= i < |init| ==> init[i] == rs[i];
      Min(Least(init, key), key(rs[|rs| - 1]))
  }

  /** `MAX(key)` over a non-empty set of rows. */
  function Greatest(rs: seq<RecordRow>, key: RecordRow -> int): (m: int)
    requires rs != []
    ensures forall i :: 0 <= i < |rs| ==> key(rs[i]) <= m
    ensures exists i :: 0 <= i < |rs| && key(rs[i]) == m
  {
    if |rs| == 1 then key(rs[0])
    else
      var init := rs[..|rs| - 1];
      assert forall i :: 0 <= i < |init| ==> init[i] == rs[i];
      Max(Greatest(init, key), key(rs[|rs| - 1]))
  }

  /**
   * What the grouped query yields for one day, read straight from its
   * clauses: nothing when no record falls on the day; otherwise the count,
   * the earliest and the latest instant of that day's records.
   */
  function GroupOn(rs: seq<RecordRow>, day: int, c: CourseRow): Option<Session> {
    GroupOf(RecordsOn(rs, day), day, c)
  }

  /** The grouped row of one day's records. */
  function GroupOf(on: seq<RecordRow>, day: int, c: CourseRow): Option<Session> {
    if on == [] then None else Some(Session(day, |on|, Least(on, Instant), Greatest(on, Instant), c.code, c.title))
  }

  /** `ORDER BY attendance_date DESC` over distinct dates. */
  predicate NewestFirst(ss: seq<Session>) {
    forall i, j :: 0 <= i < j < |ss| ==> ss[i].date > ss[j].date
  }

  /** The session dated `day`, if any. */
  function At(ss: seq<Session>, day: int): (r: Option<Session>)
    ensures r.Some? ==> r.value in ss && r.value.date == day
    ensures r.None? <==> forall i :: 0 <= i < |ss| ==> ss[i].date != day
  {
    if ss == [] then None
    else if ss[0].date == day then Some(ss[0])
    else At(ss[1..], day)
  }

  /** One more record at instant `t` in a day's group. */
  function Merge(s: Option<Session>, t: int, c: CourseRow): Session {
    match s
    case None => Session(DayOf(t, 0), 1, t, t, c.code, c.title)
    case Some(g) => Session(g.date, g.total + 1, Min(g.start, t), Max(g.end, t), g.courseCode, g.courseTitle)
  }

  /** Counts a record at instant `t` into newest-first sessions. */
  function Add(ss: seq<Session>, t: int, c: CourseRow): (r: seq<Session>)
    requires NewestFirst(ss)
    ensures NewestFirst(r)
    ensures r != [] && r[0].date == (if ss == [] then DayOf(t, 0) else Max(ss[0].date, DayOf(t, 0)))
  {
    var day := DayOf(t, 0);
    if ss == [] then [Merge(None, t, c)]
    else if ss[0].date == day then [Merge(Some(ss[0]), t, c)] + ss[1..]
    else if ss[0].date < day then [Merge(None, t, c)] + ss
    else [ss[0]] + Add(ss[1..], t, c)
  }

  /** The sessions of a course's records, one per date, newest first. */
  function Tally(rs: seq<RecordRow>, c: CourseRow): (ss: seq<Session>)
    ensures NewestFirst(ss)
  {
    if rs == [] then [] else Add(Tally(rs[..|rs| - 1], c), rs[|rs| - 1].markedAt, c)
  }

  /** A date later than the newest session's has no session. */
  lemma AtAfterNewest(ss: seq<Session>, day: int)
    requires NewestFirst(ss) && ss != [] && ss[0].date < day
    ensures At(ss, day).None?
  {
  }

  /** Adding a record changes the session of its own day and no other. */
  lemma {:induction false} AddAt(ss: seq<Session>, t: int, c: CourseRow, day: int)
    requires NewestFirst(ss)
    ensures At(Add(ss, t, c), day) == if day == DayOf(t, 0) then Some(Merge(At(ss, day), t, c)) else At(ss, day)
  {
    if ss != [] && ss[0].date > DayOf(t, 0) {
      AddAt(ss[1..], t, c, day);
    } else if ss != [] && ss[0].date < DayOf(t, 0) {
      if day == DayOf(t, 0) {
        AtAfterNewest(ss, day);
      }
    }
  }

  /** A group grows by one record exactly as `Merge` says. */
  lemma GroupOnSnoc(rs: seq<RecordRow>, r: RecordRow, c: CourseRow)
    ensures GroupOn(rs + [r], Day(r), c) == Some(Merge(GroupOn(rs, Day(r), c), r.markedAt, c))
  {
    var day := Day(r);
    FilterSnoc(rs, r, OnDay(day));
    assert OnDay(day)(r);
    GroupOfSnoc(RecordsOn(rs, day), r, c);
  }

  lemma GroupOfSnoc(on: seq<RecordRow>, r: RecordRow, c: CourseRow)
    ensures GroupOf(on + [r], Day(r), c) == Some(Merge(GroupOf(on, Day(r), c), r.markedAt, c))
  {
    if on == [] {
      assert on + [r] == [r];
    } else {
      ExtremesSnoc(on, r, Instant);
    }
  }

  /** `MIN` and `MAX` over one more row. */
  lemma ExtremesSnoc(rs: seq<RecordRow>, r: RecordRow, key: RecordRow -> int)
    requires rs != []
    ensures Least(rs + [r], key) == Min(Least(rs, key), key(r))
    ensures Greatest(rs + [r], key) == Max(Greatest(rs, key), key(r))
  {
    assert (rs + [r])[..|rs|] == rs;
  }

  /** A record on another day leaves a group alone. */
  lemma GroupOnSnocOther(rs: seq<RecordRow>, r: RecordRow, c: CourseRow, day: int)
    requires Day(r) != day
    ensures GroupOn(rs + [r], day, c) == GroupOn(rs, day, c)
  {
    FilterSnoc(rs, r, OnDay(day));
    assert !OnDay(day)(r);
    assert RecordsOn(rs + [r], day) == RecordsOn(rs, day) + [];
    assert RecordsOn(rs, day) + [] == RecordsOn(rs, day);
  }

  /** The aggregation agrees, date by date, with the grouped query. */
  lemma {:induction false} TallyGroups(rs: seq<RecordRow>, c: CourseRow, day: int)
    ensures At(Tally(rs, c), day) == GroupOn(rs, day, c)
  {
    if rs != [] {
      var init, r := rs[..|rs| - 1], rs[|rs| - 1];
      assert rs == init + [r];
      TallyGroups(init, c, day);
      AddAt(Tally(init, c), r.markedAt, c, day);
      if day == Day(r) {
        GroupOnSnoc(init, r, c);
      } else {
        GroupOnSnocOther(init, r, c, day);
      }
    }
  }

  /** In a newest-first list, each session is the one `At` finds for its date. */
  lemma {:induction false} AtMember(ss: seq<Session>, i: nat)
    requires NewestFirst(ss) && i < |ss|
    ensures At(ss, ss[i].date) == Some(ss[i])
  {
    if i > 0 {
      AtMember(ss[1..], i - 1);
    }
  }

  /**
   * Every session of the aggregation is the grouped query's row for its
   * date: it counts that day's records, and its start and end are the
   * earliest and latest of them.
   */
  lemma TallySessionsAreGroups(rs: seq<RecordRow>, c: CourseRow)
    ensures forall i :: 0 <= i < |Tally(rs, c)| ==> Some(Tally(rs, c)[i]) == GroupOn(rs, Tally(rs, c)[i].date, c)
  {
    var ss := Tally(rs, c);
    forall i | 0 <= i < |ss| ensures Some(ss[i]) == GroupOn(rs, ss[i].date, c) {
      AtMember(ss, i);
      TallyGroups(rs, c, ss[i].date);
    }
  }

  /** Each session counts at least one record and starts no later than it ends, both on its own date. */
  lemma SessionShape(rs: seq<RecordRow>, c: CourseRow, i: nat)
    requires i < |Tally(rs, c)|
    ensures var s := Tally(rs, c)[i];
      && s.total >= 1 && s.start <= s.end
      && DayOf(s.start, 0) == s.date && DayOf(s.end, 0) == s.date
      && s.courseCode == c.code && s.courseTitle == c.title
  {
    TallySessionsAreGroups(rs, c);
    var s := Tally(rs, c)[i];
    var on := RecordsOn(rs, s.date);
    assert on != [];
    var k :| 0 <= k < |on| && Instant(on[k]) == Least(on, Instant);
    var m :| 0 <= m < |on| && Instant(on[m]) == Greatest(on, Instant);
    assert Day(on[k]) == s.date && Day(on[m]) == s.date;
  }

  /** Every day on which the course has a record has a session. */
  lemma EveryRecordedDayHasSession(rs: seq<RecordRow>, c: CourseRow, i: nat)
    requires i < |rs|
    ensures At(Tally(rs, c), Day(rs[i])).Some?
  {
    TallyGroups(rs, c, Day(rs[i]));
    assert rs[i] in RecordsOn(rs, Day(rs[i]));
  }

  /** `SUM(total_students)` over the sessions. */
  function TotalOf(ss: seq<Session>): nat {
    if ss == [] then 0 else ss[0].total + TotalOf(ss[1..])
  }

  lemma {:induction false} AddTotal(ss: seq<Session>, t: int, c: CourseRow)
    requires NewestFirst(ss)
    ensures TotalOf(Add(ss, t, c)) == TotalOf(ss) + 1
  {
    if ss != [] && ss[0].date > DayOf(t, 0) {
      AddTotal(ss[1..], t, c);
      assert Add(ss, t, c)[1..] == Add(ss[1..], t, c);
    } else if ss != [] && ss[0].date == DayOf(t, 0) {
      assert Add(ss, t, c)[1..] == ss[1..];
    } else if ss != [] {
      assert Add(ss, t, c)[1..] == ss;
    }
  }

  /** The sessions together count every record of the course exactly once. */
  lemma {:induction false} TallyTotal(rs: seq<RecordRow>, c: CourseRow)
    ensures TotalOf(Tally(rs, c)) == |rs|
  {
    if rs != [] {
      TallyTotal(rs[..|rs| - 1], c);
      AddTotal(Tally(rs[..|rs| - 1], c), rs[|rs| - 1].markedAt, c);
    }
  }

  /** `DATE(marked_at)` of the records, as a set. */
  function DaysOf(rs: seq<RecordRow>): set<int> {
    KeySet(rs, Day)
  }

  function DatesOf(ss: seq<Session>): set<int> {
    set i | 0 <= i < |ss| :: ss[i].date
  }

  /** The session dates are exactly the days that have records. */
  lemma TallyDates(rs: seq<RecordRow>, c: CourseRow)
    ensures DatesOf(Tally(rs, c)) == DaysOf(rs)
  {
    var ss := Tally(rs, c);
    forall d ensures d in DatesOf(ss) <==> d in DaysOf(rs) {
      TallyGroups(rs, c, d);
      if d in DaysOf(rs) {
        var i :| 0 <= i < |rs| && Day(rs[i]) == d;
        assert rs[i] in RecordsOn(rs, d);
      }
      if d in DatesOf(ss) {
        var i :| 0 <= i < |ss| && ss[i].date == d;
        var on := RecordsOn(rs, d);
        assert on != [];
        assert on[0] in rs;
      }
    }
  }

  /** Newest-first dates are distinct, so there are as many dates as sessions. */
  lemma {:induction false} DistinctDates(ss: seq<Session>)
    requires NewestFirst(ss)
    ensures |DatesOf(ss)| == |ss|
  {
    if ss != [] {
      DistinctDates(ss[1..]);
      assert DatesOf(ss) == {ss[0].date} + DatesOf(ss[1..]);
      assert ss[0].date !in DatesOf(ss[1..]);
    }
  }

  /** One session per distinct day. */
  lemma SessionCount(rs: seq<RecordRow>, c: CourseRow)
    ensures |Tally(rs, c)| == |DaysOf(rs)|
  {
    TallyDates(rs, c);
    DistinctDates(Tally(rs, c));
  }

  /** The set of `key` values of the records. */
  function KeySet(rs: seq<RecordRow>, key: RecordRow -> int): set<int> {
    set i | 0 <= i < |rs| :: key(rs[i])
  }

  /** A set of keys has at most one member per record. */
  lemma {:induction false} KeySetBound(rs: seq<RecordRow>, key: RecordRow -> int)
    ensures |KeySet(rs, key)| <= |rs|
  {
    if rs != [] {
      var init := rs[..|rs| - 1];
      KeySetBound(init, key);
      assert KeySet(rs, key) == KeySet(init, key) + {key(rs[|rs| - 1])} by {
        forall k ensures k in KeySet(rs, key) <==> k in KeySet(init, key) + {key(rs[|rs| - 1])} {
          if k in KeySet(rs, key) {
            var i :| 0 <= i < |rs| && key(rs[i]) == k;
            if i < |init| {
              assert init[i] == rs[i];
            }
          }
          if k in KeySet(init, key) {
            var i :| 0 <= i < |init| && key(init[i]) == k;
            assert rs[i] == init[i];
          }
        }
      }
    }
  }

  function Student(r: RecordRow): int {
    r.studentId
  }

  /**
   * The statistics query over a course's records: distinct students,
   * records, distinct dates, and the first and latest date (NULL with no
   * record).
   */
  function StatsOf(rs: seq<RecordRow>): Stats {
    Stats(
      |KeySet(rs, Student)|, |rs|, |KeySet(rs, Day)|,
      if rs == [] then None else Some(Least(rs, Day)),
      if rs == [] then None else Some(Greatest(rs, Day)))
  }

  /** Neither distinct students nor distinct dates can outnumber the records, and there is a date iff there is a record. */
  lemma StatsBounds(rs: seq<RecordRow>)
    ensures StatsOf(rs).uniqueStudents <= StatsOf(rs).totalRecords
    ensures StatsOf(rs).totalSessions <= StatsOf(rs).totalRecords
    ensures StatsOf(rs).totalSessions == 0 <==> StatsOf(rs).totalRecords == 0
  {
    KeySetBound(rs, Student);
    KeySetBound(rs, Day);
    if rs != [] {
      assert Day(rs[0]) in KeySet(rs, Day);
    }
  }

  /** Every key lies between the least and the greatest, which are keys themselves. */
  lemma KeysBetween(rs: seq<RecordRow>, key: RecordRow -> int)
    requires rs != []
    ensures Least(rs, key) in KeySet(rs, key) && Greatest(rs, key) in KeySet(rs, key)
    ensures forall d :: d in KeySet(rs, key) ==> Least(rs, key) <= d <= Greatest(rs, key)
  {
    var i :| 0 <= i < |rs| && key(rs[i]) == Least(rs, key);
    var j :| 0 <= j < |rs| && key(rs[j]) == Greatest(rs, key);
  }

  /** Every date of a newest-first list lies between its last and its first. */
  lemma DatesBetween(ss: seq<Session>)
    requires NewestFirst(ss) && ss != []
    ensures ss[0].date in DatesOf(ss) && ss[|ss| - 1].date in DatesOf(ss)
    ensures forall d :: d in DatesOf(ss) ==> ss[|ss| - 1].date <= d <= ss[0].date
  {
    assert ss[|ss| - 1].date in DatesOf(ss);
  }

  /** The latest date of the records is the newest session's and the first is the oldest's. */
  lemma ExtremeDates(rs: seq<RecordRow>, c: CourseRow)
    requires rs != []
    ensures Tally(rs, c) != []
    ensures Greatest(rs, Day) == Tally(rs, c)[0].date
    ensures Least(rs, Day) == Tally(rs, c)[|Tally(rs, c)| - 1].date
  {
    var ss := Tally(rs, c);
    TallyDates(rs, c);
    KeysBetween(rs, Day);
    assert DatesOf(ss) == KeySet(rs, Day);
    DatesBetween(ss);
  }

  /**
   * The statistics agree with the session report over the same records:
   * one session per counted date, the session totals add up to the record
   * count, and the latest and first dates are the first and last sessions.
   */
  lemma StatsMatchSessions(rs: seq<RecordRow>, c: CourseRow)
    ensures StatsOf(rs).totalSessions == |Tally(rs, c)|
    ensures StatsOf(rs).totalRecords == TotalOf(Tally(rs, c))
    ensures StatsOf(rs).latestSession.None? <==> Tally(rs, c) == []
    ensures Tally(rs, c) != [] ==>
      && StatsOf(rs).latestSession == Some(Tally(rs, c)[0].date)
      && StatsOf(rs).firstSession == Some(Tally(rs, c)[|Tally(rs, c)| - 1].date)
  {
    SessionCount(rs, c);
    TallyTotal(rs, c);
    if rs != [] {
      ExtremeDates(rs, c);
    }
  }

  function HasId(courseNum: int): CourseRow -> bool {
    (c: CourseRow) => c.id == courseNum
  }

  function OwnedBy(courseNum: int, lecturerId: int): CourseRow -> bool {
    (c: CourseRow) => c.id == courseNum && c.lecturerId == lecturerId
  }

  /**
   * The sessions query for the course whose id the parameter reads as:
   * nothing when no course carries that id, since the join drops every
   * record.
   */
  function SessionsOf(courses: seq<CourseRow>, records: seq<RecordRow>, courseNum: int): (ss: seq<Session>)
    ensures NewestFirst(ss)
    ensures (forall i :: 0 <= i < |courses| ==> courses[i].id != courseNum) ==> ss == []
  {
    match First(courses, HasId(courseNum))
    case None => []
    case Some(c) => Tally(CourseRecords(records, courseNum), c)
  }

  /** The total of the session dated `day`, or zero when there is none. */
  function TotalOn(ss: seq<Session>, day: int): nat {
    match At(ss, day)
    case None => 0
    case Some(s) => s.total
  }

  function StudentHasId(id: int): StudentRow -> bool {
    (s: StudentRow) => s.id == id
  }

  /** A listed row carries its record's id, instant, student, course and date. */
  predicate Shows(v: RecordView, r: RecordRow) {
    v.id == r.id && v.markedAt == r.markedAt && v.studentId == r.studentId && v.courseId == r.courseId && v.date == Day(r)
  }

  function View(r: RecordRow, s: StudentRow, c: CourseRow): RecordView {
    RecordView(r.id, r.markedAt, s.name, s.matNo, s.id, r.courseId, c.code, c.title, Day(r))
  }

  /** One record joined with its student: nothing when the student row is missing. */
  function JoinOne(r: RecordRow, students: seq<StudentRow>, c: CourseRow): (vs: seq<RecordView>)
    ensures |vs| <= 1
    ensures vs != [] ==> Shows(vs[0], r)
    ensures First(students, StudentHasId(r.studentId)).Some? ==> |vs| == 1
  {
    match First(students, StudentHasId(r.studentId))
    case None => []
    case Some(s) => [View(r, s, c)]
  }

  /** The join with students and the course: a record whose student row is missing drops out. */
  function Joined(rs: seq<RecordRow>, students: seq<StudentRow>, c: CourseRow): (vs: seq<RecordView>)
    ensures |vs| <= |rs|
    ensures forall i :: 0 <= i < |vs| ==> exists j :: 0 <= j < |rs| && Shows(vs[i], rs[j])
  {
    if rs == [] then []
    else
      var head := JoinOne(rs[0], students, c);
      var tail := Joined(rs[1..], students, c);
      assert forall i :: 0 <= i < |tail| ==> exists j :: 0 <= j < |rs| && Shows(tail[i], rs[j]) by {
        forall i | 0 <= i < |tail| ensures exists j :: 0 <= j < |rs| && Shows(tail[i], rs[j]) {
          var j :| 0 <= j < |rs[1..]| && Shows(tail[i], rs[1..][j]);
          assert rs[1..][j] == rs[j + 1];
        }
      }
      head + tail
  }

  /** With every student present, the join keeps every record, in order. */
  lemma {:induction false} JoinedComplete(rs: seq<RecordRow>, students: seq<StudentRow>, c: CourseRow)
    requires forall i :: 0 <= i < |rs| ==> First(students, StudentHasId(rs[i].studentId)).Some?
    ensures |Joined(rs, students, c)| == |rs|
    ensures forall i :: 0 <= i < |rs| ==> Shows(Joined(rs, students, c)[i], rs[i])
  {
    if rs != [] {
      var tail := rs[1..];
      forall i | 0 <= i < |tail| ensures First(students, StudentHasId(tail[i].studentId)).Some? {
        assert tail[i] == rs[i + 1];
      }
      JoinedComplete(tail, students, c);
      var rest := Joined(tail, students, c);
      var head := JoinOne(rs[0], students, c);
      assert Joined(rs, students, c) == head + rest;
      assert |head| == 1;
      forall i | 1 <= i < |rs| ensures Shows((head + rest)[i], rs[i]) {
        assert (head + rest)[i] == rest[i - 1];
      }
    }
  }

  /** `ORDER BY ar.marked_at DESC`. */
  function NewestRecordFirst(): (RecordView, RecordView) -> bool {
    (a: RecordView, b: RecordView) => a.markedAt >= b.markedAt
  }

  /** `ORDER BY ar.marked_at ASC`. */
  function OldestRecordFirst(): (RecordView, RecordView) -> bool {
    (a: RecordView, b: RecordView) => a.markedAt <= b.markedAt
  }

  lemma RecordOrdersTotal()
    ensures TotalPreorder(NewestRecordFirst())
    ensures TotalPreorder(OldestRecordFirst())
  {
  }

  /** The listing of a course's records: joined, newest first. */
  function Listing(records: seq<RecordRow>, students: seq<StudentRow>, c: CourseRow, courseNum: int): seq<RecordView> {
    SortBy(Joined(CourseRecords(records, courseNum), students, c), NewestRecordFirst())
  }

  /** The listing of a course's records on one date: joined, oldest first. */
  function DayListing(records: seq<RecordRow>, students: seq<StudentRow>, c: CourseRow, courseNum: int, day: int): seq<RecordView> {
    SortBy(Joined(RecordsOn(CourseRecords(records, courseNum), day), students, c), OldestRecordFirst())
  }

  const NOT_OWNED: string := "Access denied: Course not found " + "or not owned by lecturer"

  /**
   * `GET /api/attendance/:courseId` of server.js: lecturers only, a
   * non-empty parameter, a course the caller owns, then every joined record
   * of the course, newest first.
   */
  function ServerRecords(user: Claims, courseId: string, courseNum: int, courses: seq<CourseRow>,
                         students: seq<StudentRow>, records: seq<RecordRow>): (r: Response)
    ensures r.status == 200 <==>
      user.userType == Str("lecturer") && courseId != "" && First(courses, OwnedBy(courseNum, user.id)).Some?
    ensures r.status == 200 ==>
      r.body == Records(Listing(records, students, First(courses, OwnedBy(courseNum, user.id)).value, courseNum))
    ensures r.status == 403 ==> r == Msg(403, "Access denied: Lecturers only") || r == Msg(403, NOT_OWNED)
  {
    if user.userType != Str("lecturer") then Msg(403, "Access denied: Lecturers only")
    else if courseId == "" then Msg(400, "courseId parameter is required")
    else match First(courses, OwnedBy(courseNum, user.id))
      case None => Msg(403, NOT_OWNED)
      case Some(c) => Response(200, Records(Listing(records, students, c, courseNum)))
  }

  /** The listing is ordered newest first and holds exactly the course's joined records, each showing a record of that course. */
  lemma ListingOrdered(records: seq<RecordRow>, students: seq<StudentRow>, c: CourseRow, courseNum: int)
    ensures Sorted(Listing(records, students, c, courseNum), NewestRecordFirst())
    ensures multiset(Listing(records, students, c, courseNum)) == multiset(Joined(CourseRecords(records, courseNum), students, c))
    ensures forall v :: v in Listing(records, students, c, courseNum) ==>
      exists r :: r in records && r.courseId == courseNum && Shows(v, r)
  {
    RecordOrdersTotal();
    var rs := CourseRecords(records, courseNum);
    var vs := Joined(rs, students, c);
    SortBySorted(vs, NewestRecordFirst());
    forall v | v in Listing(records, students, c, courseNum)
      ensures exists r :: r in records && r.courseId == courseNum && Shows(v, r)
    {
      assert v in multiset(vs);
      var i :| 0 <= i < |vs| && vs[i] == v;
      var j :| 0 <= j < |rs| && Shows(vs[i], rs[j]);
      assert rs[j] in records;
    }
  }

  /**
   * `GET /api/attendance/:courseId/date/:date` of server.js: lecturers
   * only, both parameters non-empty, then the course's joined records of
   * that date, oldest first. `day` is the date the parameter names (None
   * when it names none, which no record matches). There is no ownership
   * check.
   */
  function ServerRecordsOnDate(user: Claims, courseId: string, date: string, day: Option<int>, courseNum: int,
                               courses: seq<CourseRow>, students: seq<StudentRow>, records: seq<RecordRow>): (r: Response)
    ensures r.status == 200 <==> user.userType == Str("lecturer") && courseId != "" && date != ""
    ensures r.status == 200 && (day.None? || First(courses, HasId(courseNum)).None?) ==> r.body == Records([])
    ensures r.status == 200 && day.Some? && First(courses, HasId(courseNum)).Some? ==>
      r.body == Records(DayListing(records, students, First(courses, HasId(courseNum)).value, courseNum, day.value))
  {
    if user.userType != Str("lecturer") then Msg(403, "Access denied: Lecturers only")
    else if courseId == "" || date == "" then Msg(400, "courseId and date parameters are required")
    else match (day, First(courses, HasId(courseNum)))
      case (Some(d), Some(c)) => Response(200, Records(DayListing(records, students, c, courseNum, d)))
      case _ => Response(200, Records([]))
  }

  /**
   * `GET /api/attendance/:courseId/sessions` of server.js: lecturers only,
   * a non-empty parameter, then the sessions. There is no ownership check.
   */
  function ServerSessions(user: Claims, courseId: string, courseNum: int,
                          courses: seq<CourseRow>, records: seq<RecordRow>): (r: Response)
    ensures r.status == 200 <==> user.userType == Str("lecturer") && courseId != ""
    ensures r.status == 200 ==> r.body == Sessions(SessionsOf(courses, records, courseNum))
    ensures r.status != 200 ==> r.body.Message?
  {
    if user.userType != Str("lecturer") then Msg(403, "Access denied: Lecturers only")
    else if courseId == "" then Msg(400, "courseId parameter is required")
    else Response(200, Sessions(SessionsOf(courses, records, courseNum)))
  }

  /** api/courses/sessions.js: the same route, which first refuses any method but GET. */
  function SessionsApi(verb: string, user: Claims, courseId: string, courseNum: int,
                       courses: seq<CourseRow>, records: seq<RecordRow>): (r: Response)
    ensures verb != "GET" ==> r == Msg(405, "Method Not Allowed")
    ensures verb == "GET" ==> r == ServerSessions(user, courseId, courseNum, courses, records)
  {
    if verb != "GET" then Msg(405, "Method Not Allowed")
    else if user.userType != Str("lecturer") then Msg(403, "Access denied: Lecturers only")
    else if courseId == "" then Msg(400, "courseId parameter is required")
    else Response(200, Sessions(SessionsOf(courses, records, courseNum)))
  }

  /**
   * The date listing and the session report agree: with every student of
   * the course present, the listing for a date has as many rows as that
   * date's session counts, and none when there is no session that day.
   */
  lemma DateListingMatchesSession(user: Claims, courseId: string, date: string, day: int, courseNum: int,
                                  courses: seq<CourseRow>, students: seq<StudentRow>, records: seq<RecordRow>)
    requires user.userType == Str("lecturer") && courseId != "" && date != ""
    requires forall i :: 0 <= i < |records| && records[i].courseId == courseNum ==>
      First(students, StudentHasId(records[i].studentId)).Some?
    ensures ServerRecordsOnDate(user, courseId, date, Some(day), courseNum, courses, students, records).body.Records?
    ensures |ServerRecordsOnDate(user, courseId, date, Some(day), courseNum, courses, students, records).body.views|
      == TotalOn(SessionsOf(courses, records, courseNum), day)
  {
    match First(courses, HasId(courseNum))
    case None =>
    case Some(c) =>
      DayListingCount(records, students, c, courseNum, day);
      TallyGroups(CourseRecords(records, courseNum), c, day);
  }

  /** With every student present, the date listing has one row per record of that date. */
  lemma DayListingCount(records: seq<RecordRow>, students: seq<StudentRow>, c: CourseRow, courseNum: int, day: int)
    requires forall i :: 0 <= i < |records| && records[i].courseId == courseNum ==>
      First(students, StudentHasId(records[i].studentId)).Some?
    ensures |DayListing(records, students, c, courseNum, day)| == |RecordsOn(CourseRecords(records, courseNum), day)|
  {
    var rs := CourseRecords(records, courseNum);
    var on := RecordsOn(rs, day);
    forall i | 0 <= i < |on| ensures First(students, StudentHasId(on[i].studentId)).Some? {
      assert on[i] in rs;
      var j :| 0 <= j < |records| && records[j] == on[i];
    }
    JoinedComplete(on, students, c);
    var vs := Joined(on, students, c);
    var sorted := SortBy(vs, OldestRecordFirst());
    assert |sorted| == |multiset(sorted)| == |multiset(vs)| == |vs|;
  }

  /**
   * The statistics query as api/courses/[courseId]/stats.js runs it: GET
   * only, lecturers only, the course the caller owns (404 otherwise), then
   * its code, title and statistics.
   */
  function StatsApi(verb: string, user: Claims, courseNum: int, courses: seq<CourseRow>, records: seq<RecordRow>): (r: Response)
    ensures verb != "GET" ==> r == Msg(405, "Method Not Allowed")
    ensures verb == "GET" ==> r == ServerStats(user, courseNum, courses, records)
  {
    if verb != "GET" then Msg(405, "Method Not Allowed")
    else if user.userType != Str("lecturer") then Msg(403, "Access denied: Lecturers only")
    else match First(courses, OwnedBy(courseNum, user.id))
      case None => Msg(404, "Course not found or access denied")
      case Some(c) => Response(200, CourseStats(c.code, c.title, StatsOf(CourseRecords(records, courseNum))))
  }

  /** `GET /api/courses/:courseId/stats` of server.js. */
  function ServerStats(user: Claims, courseNum: int, courses: seq<CourseRow>, records: seq<RecordRow>): (r: Response)
    ensures r.status == 200 <==> user.userType == Str("lecturer") && First(courses, OwnedBy(courseNum, user.id)).Some?
    ensures r.status == 200 ==> r.body.CourseStats? && r.body.stats == StatsOf(CourseRecords(records, courseNum))
    ensures r.status == 200 ==>
      exists i :: 0 <= i < |courses| && courses[i].id == courseNum && courses[i].lecturerId == user.id &&
        r.body.courseCode == courses[i].code && r.body.courseTitle == courses[i].title
    ensures r.status == 404 ==> forall i :: 0 <= i < |courses| ==> !(courses[i].id == courseNum && courses[i].lecturerId == user.id)
  {
    if user.userType != Str("lecturer") then Msg(403, "Access denied: Lecturers only")
    else match First(courses, OwnedBy(courseNum, user.id))
      case None => Msg(404, "Course not found or access denied")
      case Some(c) => Response(200, CourseStats(c.code, c.title, StatsOf(CourseRecords(records, courseNum))))
  }

  /**
   * A lecturer reading both reports of one course sees them agree: the
   * session count, the record count, and the latest and first dates.
   */
  lemma StatsAgreeWithSessionReport(user: Claims, courseId: string, courseNum: int, courses: seq<CourseRow>, records: seq<RecordRow>)
    requires ServerStats(user, courseNum, courses, records).status == 200 && courseId != ""
    ensures ServerSessions(user, courseId, courseNum, courses, records).status == 200
    ensures var st := ServerStats(user, courseNum, courses, records).body.stats;
      var ss := ServerSessions(user, courseId, courseNum, courses, records).body.sessions;
      && st.totalSessions == |ss| && st.totalRecords == TotalOf(ss)
      && (ss != [] ==> st.latestSession == Some(ss[0].date) && st.firstSession == Some(ss[|ss| - 1].date))
      && (ss == [] ==> st.latestSession.None? && st.firstSession.None?)
  {
    var owned := First(courses, OwnedBy(courseNum, user.id)).value;
    assert HasId(courseNum)(owned);
    var c := First(courses, HasId(courseNum)).value;
    StatsMatchSessions(CourseRecords(records, courseNum), c);
  }

  /**
   * The sessions route with the ownership check that the listing and the
   * statistics routes make: a course the caller does not own is refused.
   */
  function OwnedSessions(user: Claims, courseId: string, courseNum: int,
                         courses: seq<CourseRow>, records: seq<RecordRow>): (r: Response)
    ensures r.status == 200 ==>
      exists i :: 0 <= i < |courses| && courses[i].id == courseNum && courses[i].lecturerId == user.id
    ensures First(courses, OwnedBy(courseNum, user.id)).Some? ==>
      r == ServerSessions(user, courseId, courseNum, courses, records)
    ensures user.userType == Str("lecturer") && courseId != "" && First(courses, OwnedBy(courseNum, user.id)).None? ==>
      r == Msg(403, NOT_OWNED)
  {
    if user.userType != Str("lecturer") then Msg(403, "Access denied: Lecturers only")
    else if courseId == "" then Msg(400, "courseId parameter is required")
    else if First(courses, OwnedBy(courseNum, user.id)).None? then Msg(403, NOT_OWNED)
    else Response(200, Sessions(SessionsOf(courses, records, courseNum)))
  }

  /** The date listing with the same ownership check. */
  function OwnedRecordsOnDate(user: Claims, courseId: string, date: string, day: Option<int>, courseNum: int,
                              courses: seq<CourseRow>, students: seq<StudentRow>, records: seq<RecordRow>): (r: Response)
    ensures r.status == 200 ==>
      exists i :: 0 <= i < |courses| && courses[i].id == courseNum && courses[i].lecturerId == user.id
    ensures First(courses, OwnedBy(courseNum, user.id)).Some? ==>
      r == ServerRecordsOnDate(user, courseId, date, day, courseNum, courses, students, records)
    ensures user.userType == Str("lecturer") && courseId != "" && date != "" && First(courses, OwnedBy(courseNum, user.id)).None? ==>
      r == Msg(403, NOT_OWNED)
  {
    if user.userType != Str("lecturer") then Msg(403, "Access denied: Lecturers only")
    else if courseId == "" || date == "" then Msg(400, "courseId and date parameters are required")
    else if First(courses, OwnedBy(courseNum, user.id)).None? then Msg(403, NOT_OWNED)
    else ServerRecordsOnDate(user, courseId, date, day, courseNum, courses, students, records)
  }

  /**
   * Lecturer 2 reads the session report of lecturer 1's course: the route
   * as written answers 200 with the session, the corrected one refuses.
   */
  lemma SessionsIgnoreOwnership()
    ensures var courses := [CourseRow(1, "CSC101", "Intro", 1)];
      var records := [RecordRow(1, 7, 1, 0)];
      var other := Claims(2, Str("lecturer"), "other@uni");
      && ServerSessions(other, "1", 1, courses, records) == Response(200, Sessions([Session(0, 1, 0, 0, "CSC101", "Intro")]))
      && OwnedSessions(other, "1", 1, courses, records) == Msg(403, NOT_OWNED)
  {
    var courses := [CourseRow(1, "CSC101", "Intro", 1)];
    var records := [RecordRow(1, 7, 1, 0)];
    var other := Claims(2, Str("lecturer"), "other@uni");
    assert First(courses, HasId(1)) == Some(courses[0]);
    assert First(courses, OwnedBy(1, 2)).None?;
    assert CourseRecords(records, 1) == records;
    assert Tally(records, courses[0]) == [Session(0, 1, 0, 0, "CSC101", "Intro")];
  }

  /**
   * Lecturer 2 reads the names and matriculation numbers of those present
   * on a day of lecturer 1's course.
   */
  lemma RecordsOnDateIgnoreOwnership()
    ensures var courses := [CourseRow(1, "CSC101", "Intro", 1)];
      var students := [StudentRow(1, "MAT001", "Ada", "ada@uni", "", "")];
      var records := [RecordRow(1, 1, 1, 0)];
      var other := Claims(2, Str("lecturer"), "other@uni");
      && ServerRecordsOnDate(other, "1", "1970-01-01", Some(0), 1, courses, students, records)
        == Response(200, Records([RecordView(1, 0, "Ada", "MAT001", 1, 1, "CSC101", "Intro", 0)]))
      && OwnedRecordsOnDate(other, "1", "1970-01-01", Some(0), 1, courses, students, records) == Msg(403, NOT_OWNED)
  {
    var courses := [CourseRow(1, "CSC101", "Intro", 1)];
    var students := [StudentRow(1, "MAT001", "Ada", "ada@uni", "", "")];
    var records := [RecordRow(1, 1, 1, 0)];
    assert First(courses, HasId(1)) == Some(courses[0]);
    assert First(courses, OwnedBy(1, 2)).None?;
    OneRecordListing(records, students, courses[0]);
  }

  lemma OneRecordListing(records: seq<RecordRow>, students: seq<StudentRow>, c: CourseRow)
    requires records == [RecordRow(1, 1, 1, 0)]
    requires students == [StudentRow(1, "MAT001", "Ada", "ada@uni", "", "")]
    requires c == CourseRow(1, "CSC101", "Intro", 1)
    ensures DayListing(records, students, c, 1, 0) == [RecordView(1, 0, "Ada", "MAT001", 1, 1, "CSC101", "Intro", 0)]
  {
    OneRecordSelected(records);
    OneRecordJoined(records, students, c);
  }

  lemma OneRecordSelected(records: seq<RecordRow>)
    requires records == [RecordRow(1, 1, 1, 0)]
    ensures RecordsOn(CourseRecords(records, 1), 0) == records
  {
    assert CourseRecords(records, 1) == records;
  }

  lemma OneRecordJoined(records: seq<RecordRow>, students: seq<StudentRow>, c: CourseRow)
    requires records == [RecordRow(1, 1, 1, 0)]
    requires students == [StudentRow(1, "MAT001", "Ada", "ada@uni", "", "")]
    requires c == CourseRow(1, "CSC101", "Intro", 1)
    ensures Joined(records, students, c) == [RecordView(1, 0, "Ada", "MAT001", 1, 1, "CSC101", "Intro", 0)]
  {
    assert First(students, StudentHasId(1)) == Some(students[0]);
    assert JoinOne(records[0], students, c) == [RecordView(1, 0, "Ada", "MAT001", 1, 1, "CSC101", "Intro", 0)];
  }
}
