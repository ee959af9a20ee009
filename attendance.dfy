/**
 * Redeeming an attendance code: api/mark-attendance.js and the
 * `/api/mark-attendance` route of server.js. The gates run in a fixed order
 * (method, role, fields, code lookup with strict expiry, geofence, one
 * record per student, course and day) and a request that passes them all
 * appends exactly one row to the ledger.
 */
module Attendance {
  import opened Wrappers
  import opened Js
  import opened Seqs
  import opened Store
  import opened Http
  import opened Utils
  import opened Auth
  import opened CodeIssue

  /** The body fields both versions require. */
  const REDEEM_FIELDS: seq<string> := ["code", "lat", "lon"]

  /** server.js takes dates at UTC+01:00 (`CONVERT_TZ(..., '+00:00', '+01:00')`), in seconds. */
  const SERVER_DAY_OFFSET: int := 3600

  /** `String(code).trim().toUpperCase()`. */
  function Normalize(s: string): (r: string)
    ensures |r| <= |s|
    ensures r == [] || (!IsWhitespace(r[0]) && !IsWhitespace(r[|r| - 1]))
  {
    var t := Trim(s);
    UpperCharKeepsWhitespace(if t == [] then ' ' else t[0]);
    UpperCharKeepsWhitespace(if t == [] then ' ' else t[|t| - 1]);
    ToUpper(t)
  }

  /** Normalising a normalised code changes nothing. */
  lemma NormalizeIdempotent(s: string)
    ensures Normalize(Normalize(s)) == Normalize(s)
  {
    var n := Normalize(s);
    TrimFixed(n);
    UpperIdempotent(Trim(s));
  }

  /** An issued code is already in normal form, so presenting it verbatim finds it. */
  lemma IssuedCodeIsNormal(raw: string)
    requires IsRandomText(raw)
    ensures Normalize(CodeFromRandom(raw)) == CodeFromRandom(raw)
  {
    PlainCodeIsNormal(CodeFromRandom(raw));
  }

  /** A string of code characters is in normal form. */
  lemma PlainCodeIsNormal(code: string)
    requires forall i :: 0 <= i < |code| ==> IsCodeChar(code[i])
    ensures Normalize(code) == code
  {
    forall i | 0 <= i < |code| ensures !IsWhitespace(code[i]) && UpperChar(code[i]) == code[i] {
      CodeCharIsPlain(code[i]);
    }
    TrimFixed(code);
    assert ToUpper(code) == code;
  }

  /** A code character is not whitespace and upper-casing leaves it alone. */
  lemma CodeCharIsPlain(c: char)
    requires IsCodeChar(c)
    ensures !IsWhitespace(c) && UpperChar(c) == c
  {
  }

  /** `code = ? AND expires_at > UTC_TIMESTAMP()`. */
  predicate IsLive(row: CodeRow, code: string, now: int) {
    row.code == code && row.expiresAt > now
  }

  /** The rows the lookup returns, in table order. */
  function LiveCodes(codes: seq<CodeRow>, code: string, now: int): (r: seq<CodeRow>)
    ensures forall i :: 0 <= i < |r| ==> r[i] in codes && IsLive(r[i], code, now)
  {
    Filter(codes, (row: CodeRow) => IsLive(row, code, now))
  }

  /** `codes[0]`: the first live row with the code, if any. */
  function FirstLive(codes: seq<CodeRow>, code: string, now: int): (r: Option<CodeRow>)
    ensures r.None? <==> forall i :: 0 <= i < |codes| ==> !IsLive(codes[i], code, now)
    ensures r.Some? ==>
      (exists k :: 0 <= k < |codes| && codes[k] == r.value && IsLive(codes[k], code, now)
        && (forall i :: 0 <= i < k ==> !IsLive(codes[i], code, now)))
  {
    First(codes, (row: CodeRow) => IsLive(row, code, now))
  }

  /** The row used is the head of the lookup's result. */
  lemma FirstLiveIsHead(codes: seq<CodeRow>, code: string, now: int)
    ensures FirstLive(codes, code, now).None? <==> LiveCodes(codes, code, now) == []
    ensures LiveCodes(codes, code, now) != [] ==> FirstLive(codes, code, now) == Some(LiveCodes(codes, code, now)[0])
  {
    FilterHeadIsFirst(codes, (row: CodeRow) => IsLive(row, code, now));
  }

  /** A record of this student for this course whose date is `today`. */
  predicate SameDay(r: RecordRow, studentId: int, courseId: int, today: int, recordOffset: int) {
    r.studentId == studentId && r.courseId == courseId && DayOf(r.markedAt, recordOffset) == today
  }

  /** The dedup query found a row. */
  predicate AlreadyMarked(records: seq<RecordRow>, studentId: int, courseId: int, today: int, recordOffset: int) {
    exists i :: 0 <= i < |records| && SameDay(records[i], studentId, courseId, today, recordOffset)
  }

  /** The ledger invariant: at most one record per student, course and day, days taken at `offset`. */
  predicate OnePerDay(records: seq<RecordRow>, offset: int) {
    forall i, j :: (0 <= i < j < |records| && records[i].studentId == records[j].studentId
      && records[i].courseId == records[j].courseId) ==>
      DayOf(records[i].markedAt, offset) != DayOf(records[j].markedAt, offset)
  }

  /** Appending a record that the dedup query, run at the same offset, did not match keeps the invariant. */
  lemma AppendKeepsOnePerDay(records: seq<RecordRow>, r: RecordRow, offset: int)
    requires OnePerDay(records, offset)
    requires !AlreadyMarked(records, r.studentId, r.courseId, DayOf(r.markedAt, offset), offset)
    ensures OnePerDay(records + [r], offset)
  {
    var rs := records + [r];
    forall i, j | 0 <= i < j < |rs| && rs[i].studentId == rs[j].studentId && rs[i].courseId == rs[j].courseId
      ensures DayOf(rs[i].markedAt, offset) != DayOf(rs[j].markedAt, offset)
    {
      if j == |records| {
        assert !SameDay(records[i], r.studentId, r.courseId, DayOf(r.markedAt, offset), offset);
      }
    }
  }

  /** `Math.round` of a non-negative distance: halves round up. */
  function Round(m: real): (n: int)
    ensures n as real - 0.5 <= m < n as real + 0.5
  {
    (m + 0.5).Floor
  }

  /** How a distance prints in a template string after `Math.round`. */
  function DistanceText(d: Distance): string {
    match d
    case Meters(m) => IntToDecimal(Round(m))
    case Infinity => "Infinity"
    case NotANumber => "NaN"
  }

  /** The distance from the student to the issuer of `c`; the stored coordinates are finite. */
  function DistanceTo(lat: Number, lon: Number, c: CodeRow, haversine: (real, real, real, real) -> real): Distance {
    GetDistance(lat, lon, Number.Finite(c.lat), Number.Finite(c.lon), haversine)
  }

  function TooFarText(d: Distance): string {
    "You are too far from the class location (" + DistanceText(d) + "m away)"
  }

  /**
   * The handler of api/mark-attendance.js. `lat` and `lon` are `parseFloat`
   * of the body fields, `now` is `UTC_TIMESTAMP()`, and `sessionOffset` is
   * the offset of the store's session time zone, in which `CURDATE()` is
   * taken; `DATE(marked_at)` reads the stored UTC value. The geofence is
   * the written `distance > MAX_DISTANCE`, which a NaN distance passes.
   */
  function Redeem(verb: string, user: Claims, body: map<string, Value>, lat: Number, lon: Number,
                  now: int, sessionOffset: int, codes: seq<CodeRow>, records: seq<RecordRow>, nextId: int,
                  haversine: (real, real, real, real) -> real): (d: Decision<RecordRow>)
    ensures d.outcome.Returned?
    ensures d.insert.Some? ==>
      && verb == "POST" && user.userType == Str("student") && ValidationError(body, REDEEM_FIELDS).None?
      && d.outcome.response == Msg(200, "Attendance marked successfully")
      && LiveCodes(codes, Normalize(ToString(Get(body, "code"))), now) != []
      && var c := LiveCodes(codes, Normalize(ToString(Get(body, "code"))), now)[0];
      && d.insert.value == RecordRow(nextId, user.id, c.courseId, now)
      && !ExceedsAsWritten(DistanceTo(lat, lon, c, haversine))
      && !AlreadyMarked(records, user.id, c.courseId, DayOf(now, sessionOffset), 0)
    ensures d.insert.None? ==> d.outcome.response.status != 200
  {
    if verb != "POST" then Reply(Msg(405, "Method Not Allowed"))
    else if user.userType != Str("student") then Reply(Msg(403, "Access denied"))
    else if ValidationError(body, REDEEM_FIELDS).Some? then Reply(Msg(400, ValidationError(body, REDEEM_FIELDS).value))
    else
      var cleaned := Normalize(ToString(Get(body, "code")));
      FirstLiveIsHead(codes, cleaned, now);
      match FirstLive(codes, cleaned, now)
      case None => Reply(Msg(400, "Invalid or expired attendance code"))
      case Some(c) =>
        var distance := DistanceTo(lat, lon, c, haversine);
        if ExceedsAsWritten(distance) then Reply(Msg(403, TooFarText(distance)))
        else if AlreadyMarked(records, user.id, c.courseId, DayOf(now, sessionOffset), 0) then
          Reply(Msg(409, "Attendance already marked for this course today"))
        else
          Decision(Returned(Msg(200, "Attendance marked successfully")), Some(RecordRow(nextId, user.id, c.courseId, now)))
  }

  /** The request gets as far as the geofence, and the distance there is NaN. */
  predicate ReachesGateWithNaN(user: Claims, body: map<string, Value>, lat: Number, lon: Number, now: int,
                               codes: seq<CodeRow>, haversine: (real, real, real, real) -> real) {
    && user.userType == Str("student") && ValidationError(body, REDEEM_FIELDS).None?
    && FirstLive(codes, Normalize(ToString(Get(body, "code"))), now).Some?
    && DistanceTo(lat, lon, FirstLive(codes, Normalize(ToString(Get(body, "code"))), now).value, haversine).NotANumber?
  }

  /**
   * The handler with the geofence it evidently means: a NaN distance is
   * refused like every distance that is not a measured one within 100 m.
   * Every other request is decided as written.
   */
  function CorrectedRedeem(verb: string, user: Claims, body: map<string, Value>, lat: Number, lon: Number,
                           now: int, sessionOffset: int, codes: seq<CodeRow>, records: seq<RecordRow>, nextId: int,
                           haversine: (real, real, real, real) -> real): (d: Decision<RecordRow>)
    ensures d.outcome.Returned?
    ensures d.insert.Some? ==>
      && d == Redeem(verb, user, body, lat, lon, now, sessionOffset, codes, records, nextId, haversine)
      && FirstLive(codes, Normalize(ToString(Get(body, "code"))), now).Some?
      && !OutsideGeofence(DistanceTo(lat, lon, FirstLive(codes, Normalize(ToString(Get(body, "code"))), now).value, haversine))
    ensures d.insert.None? ==> d.outcome.response.status != 200
  {
    FirstLiveIsHead(codes, Normalize(ToString(Get(body, "code"))), now);
    if verb == "POST" && ReachesGateWithNaN(user, body, lat, lon, now, codes, haversine) then
      Reply(Msg(403, TooFarText(NotANumber)))
    else
      Redeem(verb, user, body, lat, lon, now, sessionOffset, codes, records, nextId, haversine)
  }

  /** The handler against the store: the ledger grows by the decided row and nothing else changes. */
  method MarkAttendance(db: Db, verb: string, user: Claims, body: map<string, Value>, lat: Number, lon: Number,
                        now: int, sessionOffset: int, haversine: (real, real, real, real) -> real)
    returns (resp: Response)
    requires db.Valid()
    modifies db
    ensures db.Valid()
    ensures var d := Redeem(verb, user, body, lat, lon, now, sessionOffset, old(db.codes), old(db.records),
                            |old(db.records)| + 1, haversine);
      resp == GenericGuard(d.outcome) && db.records == old(db.records) + d.insert.ToSeq()
    ensures db.codes == old(db.codes) && db.courses == old(db.courses) && db.students == old(db.students)
    ensures db.lecturers == old(db.lecturers) && db.admins == old(db.admins)
  {
    ghost var d := Redeem(verb, user, body, lat, lon, now, sessionOffset, db.codes, db.records, |db.records| + 1, haversine);
    if verb != "POST" {
      return Msg(405, "Method Not Allowed");
    }
    if user.userType != Str("student") {
      return Msg(403, "Access denied");
    }
    var validationError := ValidateInput(body, REDEEM_FIELDS);
    if validationError.Some? {
      return Msg(400, validationError.value);
    }
    var studentId := user.id;
    var cleanedCode := Normalize(ToString(Get(body, "code")));
    var found := FirstLive(db.codes, cleanedCode, now);
    if found.None? {
      return Msg(400, "Invalid or expired attendance code");
    }
    var validCode := found.value;
    var distance := DistanceTo(lat, lon, validCode, haversine);
    if ExceedsAsWritten(distance) {
      return Msg(403, TooFarText(distance));
    }
    if AlreadyMarked(db.records, studentId, validCode.courseId, DayOf(now, sessionOffset), 0) {
      return Msg(409, "Attendance already marked for this course today");
    }
    var row := RecordRow(|db.records| + 1, studentId, validCode.courseId, now);
    assert d.insert == Some(row);
    db.InsertRecord(row);
    resp := Msg(200, "Attendance marked successfully");
  }

  /** The deployed endpoint: the Bearer gate, then the handler; a refused request leaves the store alone. */
  method MarkAttendanceRoute(db: Db, header: Option<string>, verify: string -> Option<Claims>, verb: string,
                             body: map<string, Value>, lat: Number, lon: Number, now: int, sessionOffset: int,
                             haversine: (real, real, real, real) -> real)
    returns (resp: Response)
    requires db.Valid()
    modifies db
    ensures db.Valid()
    ensures VerifyToken(header, verify).Rejected? ==>
      resp == VerifyToken(header, verify).response && db.records == old(db.records)
    ensures VerifyToken(header, verify).Admitted? ==>
      var d := Redeem(verb, VerifyToken(header, verify).user, body, lat, lon, now, sessionOffset,
                      old(db.codes), old(db.records), |old(db.records)| + 1, haversine);
      resp == GenericGuard(d.outcome) && db.records == old(db.records) + d.insert.ToSeq()
    ensures db.codes == old(db.codes) && db.courses == old(db.courses) && db.students == old(db.students)
    ensures db.lecturers == old(db.lecturers) && db.admins == old(db.admins)
  {
    var gate := VerifyToken(header, verify);
    if gate.Rejected? {
      return gate.response;
    }
    resp := MarkAttendance(db, verb, gate.user, body, lat, lon, now, sessionOffset, haversine);
  }

  /** A request other than POST is refused before anything else, a non-student next. */
  lemma RedeemMethodAndRoleGates(verb: string, user: Claims, body: map<string, Value>, lat: Number, lon: Number,
                                 now: int, sessionOffset: int, codes: seq<CodeRow>, records: seq<RecordRow>,
                                 nextId: int, haversine: (real, real, real, real) -> real)
    ensures verb != "POST" ==>
      Redeem(verb, user, body, lat, lon, now, sessionOffset, codes, records, nextId, haversine)
        == Reply(Msg(405, "Method Not Allowed"))
    ensures verb == "POST" && user.userType != Str("student") ==>
      Redeem(verb, user, body, lat, lon, now, sessionOffset, codes, records, nextId, haversine)
        == Reply(Msg(403, "Access denied"))
  {
  }

  /**
   * Expiry is strict: when every row carrying the presented code expires at
   * or before `now`, the answer is 400 and the ledger is untouched.
   */
  lemma RedeemExpiredCode(user: Claims, body: map<string, Value>, lat: Number, lon: Number,
                          now: int, sessionOffset: int, codes: seq<CodeRow>, records: seq<RecordRow>,
                          nextId: int, haversine: (real, real, real, real) -> real)
    requires user.userType == Str("student") && ValidationError(body, REDEEM_FIELDS).None?
    requires forall i :: 0 <= i < |codes| && codes[i].code == Normalize(ToString(Get(body, "code"))) ==>
      codes[i].expiresAt <= now
    ensures Redeem("POST", user, body, lat, lon, now, sessionOffset, codes, records, nextId, haversine)
      == Reply(Msg(400, "Invalid or expired attendance code"))
  {
  }

  /** A code is redeemable up to the second before its expiry and not at it. */
  lemma ExpiryBoundary(row: CodeRow)
    ensures IsLive(row, row.code, row.expiresAt - 1)
    ensures !IsLive(row, row.code, row.expiresAt)
  {
  }

  /** The ten-minute window: a code issued at `t` is live at every instant before `t + 600` and at none after. */
  lemma IssuedCodeLiveWindow(nextId: int, raw: string, courseNum: int, lat: real, lon: real, t: int, now: int)
    requires IsRandomText(raw)
    ensures IsLive(IssuedRow(nextId, raw, courseNum, lat, lon, t), CodeFromRandom(raw), now) <==> now < t + CODE_LIFETIME
  {
  }

  /**
   * When several live rows share the code (issuing never checks for a
   * clash), the record goes to the course of the earliest of them.
   */
  lemma RedeemUsesFirstLiveRow(user: Claims, body: map<string, Value>, lat: Number, lon: Number,
                               now: int, sessionOffset: int, codes: seq<CodeRow>, records: seq<RecordRow>,
                               nextId: int, haversine: (real, real, real, real) -> real, k: nat)
    requires k < |codes| && IsLive(codes[k], Normalize(ToString(Get(body, "code"))), now)
    requires forall i :: 0 <= i < k ==> !IsLive(codes[i], Normalize(ToString(Get(body, "code"))), now)
    requires Redeem("POST", user, body, lat, lon, now, sessionOffset, codes, records, nextId, haversine).insert.Some?
    ensures Redeem("POST", user, body, lat, lon, now, sessionOffset, codes, records, nextId, haversine).insert.value.courseId
      == codes[k].courseId
  {
    var code := Normalize(ToString(Get(body, "code")));
    FirstLiveIsHead(codes, code, now);
    FirstIndexUnique(codes, (row: CodeRow) => IsLive(row, code, now), k);
  }

  /** A newly issued code that repeats a live one is shadowed by the older row. */
  lemma DuplicateIssueShadowed(codes: seq<CodeRow>, newRow: CodeRow, now: int)
    requires FirstLive(codes, newRow.code, now).Some?
    ensures FirstLive(codes + [newRow], newRow.code, now) == FirstLive(codes, newRow.code, now)
  {
    var p := (row: CodeRow) => IsLive(row, newRow.code, now);
    var k :| 0 <= k < |codes| && codes[k] == FirstLive(codes, newRow.code, now).value && p(codes[k])
      && (forall i :: 0 <= i < k ==> !p(codes[i]));
    FirstIndexUnique(codes + [newRow], p, k);
    FirstIndexUnique(codes, p, k);
  }

  /** Beyond 100 m by the written test: 403 naming the rounded distance, checked before the dedup. */
  lemma RedeemTooFar(user: Claims, body: map<string, Value>, lat: Number, lon: Number,
                     now: int, sessionOffset: int, codes: seq<CodeRow>, records: seq<RecordRow>,
                     nextId: int, haversine: (real, real, real, real) -> real)
    requires user.userType == Str("student") && ValidationError(body, REDEEM_FIELDS).None?
    requires FirstLive(codes, Normalize(ToString(Get(body, "code"))), now).Some?
    requires ExceedsAsWritten(DistanceTo(lat, lon, FirstLive(codes, Normalize(ToString(Get(body, "code"))), now).value, haversine))
    ensures Redeem("POST", user, body, lat, lon, now, sessionOffset, codes, records, nextId, haversine)
      == Reply(Msg(403, TooFarText(DistanceTo(lat, lon, FirstLive(codes, Normalize(ToString(Get(body, "code"))), now).value, haversine))))
  {
  }

  /** A distance of exactly 100 m passes the geofence; with no record today the student is marked. */
  lemma RedeemAtExactly100m(user: Claims, body: map<string, Value>, lat: Number, lon: Number,
                            now: int, sessionOffset: int, codes: seq<CodeRow>, records: seq<RecordRow>,
                            nextId: int, haversine: (real, real, real, real) -> real)
    requires user.userType == Str("student") && ValidationError(body, REDEEM_FIELDS).None?
    requires FirstLive(codes, Normalize(ToString(Get(body, "code"))), now).Some?
    requires DistanceTo(lat, lon, FirstLive(codes, Normalize(ToString(Get(body, "code"))), now).value, haversine)
      == Meters(MAX_DISTANCE)
    requires !AlreadyMarked(records, user.id, FirstLive(codes, Normalize(ToString(Get(body, "code"))), now).value.courseId,
                            DayOf(now, sessionOffset), 0)
    ensures Redeem("POST", user, body, lat, lon, now, sessionOffset, codes, records, nextId, haversine).insert.Some?
  {
  }

  /** Every gate passed, the geofence as written (so also at a NaN distance): the record is inserted. */
  lemma RedeemAccepts(user: Claims, body: map<string, Value>, lat: Number, lon: Number,
                      now: int, sessionOffset: int, codes: seq<CodeRow>, records: seq<RecordRow>,
                      nextId: int, haversine: (real, real, real, real) -> real)
    requires user.userType == Str("student") && ValidationError(body, REDEEM_FIELDS).None?
    requires FirstLive(codes, Normalize(ToString(Get(body, "code"))), now).Some?
    requires !ExceedsAsWritten(DistanceTo(lat, lon, FirstLive(codes, Normalize(ToString(Get(body, "code"))), now).value, haversine))
    requires !AlreadyMarked(records, user.id, FirstLive(codes, Normalize(ToString(Get(body, "code"))), now).value.courseId,
                            DayOf(now, sessionOffset), 0)
    ensures Redeem("POST", user, body, lat, lon, now, sessionOffset, codes, records, nextId, haversine).insert.Some?
  {
  }

  /** Already marked today (and near enough): 409, nothing inserted. */
  lemma RedeemAlreadyMarked(user: Claims, body: map<string, Value>, lat: Number, lon: Number,
                            now: int, sessionOffset: int, codes: seq<CodeRow>, records: seq<RecordRow>,
                            nextId: int, haversine: (real, real, real, real) -> real)
    requires user.userType == Str("student") && ValidationError(body, REDEEM_FIELDS).None?
    requires FirstLive(codes, Normalize(ToString(Get(body, "code"))), now).Some?
    requires !ExceedsAsWritten(DistanceTo(lat, lon, FirstLive(codes, Normalize(ToString(Get(body, "code"))), now).value, haversine))
    requires AlreadyMarked(records, user.id, FirstLive(codes, Normalize(ToString(Get(body, "code"))), now).value.courseId,
                           DayOf(now, sessionOffset), 0)
    ensures Redeem("POST", user, body, lat, lon, now, sessionOffset, codes, records, nextId, haversine)
      == Reply(Msg(409, "Attendance already marked for this course today"))
  {
  }

  /**
   * When `CURDATE()` and `DATE(marked_at)` agree on the day of `now` (the
   * session time zone is UTC, or the instant is far enough from midnight),
   * repeating a successful request answers 409 and inserts nothing.
   */
  lemma RedeemTwiceConflicts(user: Claims, body: map<string, Value>, lat: Number, lon: Number,
                             now: int, sessionOffset: int, codes: seq<CodeRow>,
                             records: seq<RecordRow>, nextId: int,
                             haversine: (real, real, real, real) -> real)
    requires DayOf(now, 0) == DayOf(now, sessionOffset)
    requires Redeem("POST", user, body, lat, lon, now, sessionOffset, codes, records, nextId, haversine).insert.Some?
    ensures var first := Redeem("POST", user, body, lat, lon, now, sessionOffset, codes, records, nextId, haversine);
      Redeem("POST", user, body, lat, lon, now, sessionOffset, codes, records + [first.insert.value], nextId + 1, haversine)
        == Reply(Msg(409, "Attendance already marked for this course today"))
  {
    var first := Redeem("POST", user, body, lat, lon, now, sessionOffset, codes, records, nextId, haversine);
    var code := Normalize(ToString(Get(body, "code")));
    FirstLiveIsHead(codes, code, now);
    var c := FirstLive(codes, code, now).value;
    var rs := records + [first.insert.value];
    assert SameDay(rs[|records|], user.id, c.courseId, DayOf(now, sessionOffset), 0);
    RedeemAlreadyMarked(user, body, lat, lon, now, sessionOffset, codes, rs, nextId + 1, haversine);
  }

  /**
   * When the two dates disagree (a session zone ahead of UTC, just before
   * UTC midnight), the dedup query misses the record just written and the
   * same request is accepted a second time.
   */
  lemma RedeemTwiceAcceptedAcrossMidnight(user: Claims, body: map<string, Value>, lat: Number,
                                          lon: Number, now: int, sessionOffset: int,
                                          codes: seq<CodeRow>, records: seq<RecordRow>, nextId: int,
                                          haversine: (real, real, real, real) -> real)
    requires DayOf(now, 0) != DayOf(now, sessionOffset)
    requires Redeem("POST", user, body, lat, lon, now, sessionOffset, codes, records, nextId, haversine).insert.Some?
    ensures var first := Redeem("POST", user, body, lat, lon, now, sessionOffset, codes, records, nextId, haversine);
      Redeem("POST", user, body, lat, lon, now, sessionOffset, codes, records + [first.insert.value], nextId + 1, haversine).insert.Some?
  {
    var first := Redeem("POST", user, body, lat, lon, now, sessionOffset, codes, records, nextId, haversine);
    var code := Normalize(ToString(Get(body, "code")));
    FirstLiveIsHead(codes, code, now);
    var c := FirstLive(codes, code, now).value;
    var rs := records + [first.insert.value];
    AppendOtherDayNotMarked(records, first.insert.value, DayOf(now, sessionOffset));
    RedeemAccepts(user, body, lat, lon, now, sessionOffset, codes, rs, nextId + 1, haversine);
  }

  /** A record dated on another day does not make the dedup query match. */
  lemma AppendOtherDayNotMarked(records: seq<RecordRow>, r: RecordRow, today: int)
    requires !AlreadyMarked(records, r.studentId, r.courseId, today, 0)
    requires DayOf(r.markedAt, 0) != today
    ensures !AlreadyMarked(records + [r], r.studentId, r.courseId, today, 0)
  {
    var rs := records + [r];
    forall i | 0 <= i < |rs| ensures !SameDay(rs[i], r.studentId, r.courseId, today, 0) {
      if i < |records| {
        assert rs[i] == records[i];
      }
    }
  }

  /** 23:30 UTC in a session zone one hour ahead of UTC is such an instant. */
  lemma MidnightWitness()
    ensures DayOf(84600, 0) != DayOf(84600, SERVER_DAY_OFFSET)
  {
  }

  /**
   * Gate order: a student beyond 100 m by the written test and already marked gets 403,
   * not 409; an expired code gets 400 wherever the student stands.
   */
  lemma RedeemGateOrder(user: Claims, body: map<string, Value>, lat: Number, lon: Number,
                        now: int, sessionOffset: int, codes: seq<CodeRow>, records: seq<RecordRow>,
                        nextId: int, haversine: (real, real, real, real) -> real)
    requires user.userType == Str("student") && ValidationError(body, REDEEM_FIELDS).None?
    ensures FirstLive(codes, Normalize(ToString(Get(body, "code"))), now).None? ==>
      Redeem("POST", user, body, lat, lon, now, sessionOffset, codes, records, nextId, haversine).outcome.response.status == 400
    ensures (FirstLive(codes, Normalize(ToString(Get(body, "code"))), now).Some?
      && ExceedsAsWritten(DistanceTo(lat, lon, FirstLive(codes, Normalize(ToString(Get(body, "code"))), now).value, haversine))) ==>
      Redeem("POST", user, body, lat, lon, now, sessionOffset, codes, records, nextId, haversine).outcome.response.status == 403
  {
  }

  /** With the session time zone at UTC, the handler keeps one record per student, course and UTC day. */
  lemma RedeemKeepsOnePerDay(user: Claims, body: map<string, Value>, lat: Number, lon: Number,
                             now: int, codes: seq<CodeRow>, records: seq<RecordRow>,
                             nextId: int, haversine: (real, real, real, real) -> real)
    requires OnePerDay(records, 0)
    ensures OnePerDay(records + Redeem("POST", user, body, lat, lon, now, 0, codes, records, nextId, haversine).insert.ToSeq(), 0)
  {
    var d := Redeem("POST", user, body, lat, lon, now, 0, codes, records, nextId, haversine);
    if d.insert.Some? {
      AppendKeepsOnePerDay(records, d.insert.value, 0);
    }
  }

  /**
   * A student who sends the latitude "Infinity" makes the distance NaN
   * (lecturer coordinates are non-zero), and the handler as written marks
   * them present wherever they stand; the corrected handler refuses with 403.
   */
  lemma NaNDistanceMarkedAsWritten(user: Claims, body: map<string, Value>, lon: Number,
                                   now: int, sessionOffset: int, codes: seq<CodeRow>, records: seq<RecordRow>,
                                   nextId: int, haversine: (real, real, real, real) -> real)
    requires user.userType == Str("student") && ValidationError(body, REDEEM_FIELDS).None?
    requires NumberTruthy(lon)
    requires FirstLive(codes, Normalize(ToString(Get(body, "code"))), now).Some?
    requires FirstLive(codes, Normalize(ToString(Get(body, "code"))), now).value.lat != 0.0
    requires FirstLive(codes, Normalize(ToString(Get(body, "code"))), now).value.lon != 0.0
    requires !AlreadyMarked(records, user.id, FirstLive(codes, Normalize(ToString(Get(body, "code"))), now).value.courseId,
                            DayOf(now, sessionOffset), 0)
    ensures Redeem("POST", user, body, PosInf, lon, now, sessionOffset, codes, records, nextId, haversine).outcome
      == Returned(Msg(200, "Attendance marked successfully"))
    ensures Redeem("POST", user, body, PosInf, lon, now, sessionOffset, codes, records, nextId, haversine).insert.Some?
    ensures CorrectedRedeem("POST", user, body, PosInf, lon, now, sessionOffset, codes, records, nextId, haversine)
      == Reply(Msg(403, TooFarText(NotANumber)))
  {
    var c := FirstLive(codes, Normalize(ToString(Get(body, "code"))), now).value;
    InfiniteCoordinatePassesAsWrittenGate(lon, Number.Finite(c.lat), Number.Finite(c.lon), haversine);
    RedeemAccepts(user, body, PosInf, lon, now, sessionOffset, codes, records, nextId, haversine);
  }

  // ---------------------------------------------------------------------
  // server.js

  /** The `catch` of the server route: any error inside the `try` becomes this 500. */
  function ServerAttendanceCatch(e: JsError): (r: Response)
    ensures r.status == 500
  {
    Msg(500, "Database error during attendance marking")
  }

  /**
   * As written, an unmatched code reads the undeclared `expiredCodes`; the
   * ReferenceError is caught by the route's own `catch`.
   */
  function ServerUnmatchedAsWritten(): (r: Response)
    ensures r == Msg(500, "Database error during attendance marking")
  {
    ServerAttendanceCatch(ReferenceError("expiredCodes"))
  }

  /** A row with the code that has already expired. */
  predicate IsExpired(row: CodeRow, code: string, now: int) {
    row.code == code && row.expiresAt <= now
  }

  function ExpiredMatch(code: string, now: int): CodeRow -> bool {
    (row: CodeRow) => IsExpired(row, code, now)
  }

  /** The expiry message, with the whole minutes and the remaining seconds since expiry. */
  function ExpiredText(minutes: nat, seconds: nat): string {
    "Attendance code expired " + IntToDecimal(minutes) + " minutes and " + IntToDecimal(seconds) + " seconds ago"
  }

  /** The message for a row that expired `now - expiresAt` seconds ago. */
  function ExpiryMessage(row: CodeRow, now: int): (m: string)
    requires row.expiresAt <= now
    ensures m != INVALID_CODE_TEXT
  {
    ExpiredTextIsNotInvalid((now - row.expiresAt) / 60, (now - row.expiresAt) % 60);
    ExpiredText((now - row.expiresAt) / 60, (now - row.expiresAt) % 60)
  }

  /**
   * The evident intent of server.js:865-899: look the code up among expired
   * rows and say how long ago it expired, or that it does not exist.
   */
  function ServerUnmatched(codes: seq<CodeRow>, code: string, now: int): (r: Response)
    ensures r.status == 400
  {
    match First(codes, ExpiredMatch(code, now))
    case None => Msg(400, INVALID_CODE_TEXT)
    case Some(e) => Msg(400, ExpiryMessage(e, now))
  }

  const INVALID_CODE_TEXT: string := "Invalid attendance code. " + "Please check the code and try again."

  /** The expiry message is never the invalid-code message. */
  lemma ExpiredTextIsNotInvalid(minutes: nat, seconds: nat)
    ensures ExpiredText(minutes, seconds) != INVALID_CODE_TEXT
  {
    assert ExpiredText(minutes, seconds)[0] == 'A';
    assert INVALID_CODE_TEXT[0] == 'I';
  }


  /**
   * The corrected branch tells the two cases apart: a code that has
   * expired is reported as expired, with the time since its expiry, and
   * only a code that was never issued is called invalid.
   */
  lemma ServerUnmatchedDistinguishes(codes: seq<CodeRow>, code: string, now: int)
    ensures ServerUnmatched(codes, code, now) == Msg(400, INVALID_CODE_TEXT) <==>
      forall i :: 0 <= i < |codes| ==> !IsExpired(codes[i], code, now)
  {
    var e := First(codes, ExpiredMatch(code, now));
    if e.Some? {
      assert ExpiryMessage(e.value, now) != INVALID_CODE_TEXT;
    }
  }

  /** An expired row reports its own expiry when no earlier row with the code has expired. */
  lemma ServerUnmatchedReportsFirstExpired(codes: seq<CodeRow>, code: string, now: int, k: nat)
    requires k < |codes| && IsExpired(codes[k], code, now)
    requires forall i :: 0 <= i < k ==> !IsExpired(codes[i], code, now)
    ensures ServerUnmatched(codes, code, now) == Msg(400, ExpiryMessage(codes[k], now))
  {
    FirstIndexUnique(codes, ExpiredMatch(code, now), k);
  }

  /** `Math.round(distance)` as `res.json` writes it: NaN and the infinities become `null`. */
  function JsonDistance(d: Distance): (r: Option<int>)
    ensures r.Some? <==> d.Meters?
    ensures d.Meters? ==> r.value as real - 0.5 <= d.m < r.value as real + 0.5
  {
    match d
    case Meters(m) => Some(Round(m))
    case _ => None
  }

  /**
   * The server route as written. An unmatched code reaches the undeclared
   * `expiredCodes` and ends in the route's 500; the geofence is the written
   * `distance > MAX_DISTANCE`, which a NaN distance passes; dates are taken
   * at UTC+01:00 on both sides of the dedup comparison.
   */
  function ServerRedeem(user: Claims, body: map<string, Value>, lat: Number, lon: Number, now: int,
                        codes: seq<CodeRow>, records: seq<RecordRow>, nextId: int,
                        haversine: (real, real, real, real) -> real): (d: Decision<RecordRow>)
    ensures d.outcome.Returned?
    ensures d.insert.Some? ==>
      && user.userType == Str("student") && ValidationError(body, REDEEM_FIELDS).None?
      && LiveCodes(codes, Normalize(ToString(Get(body, "code"))), now) != []
      && var c := LiveCodes(codes, Normalize(ToString(Get(body, "code"))), now)[0];
      && var distance := DistanceTo(lat, lon, c, haversine);
      && !ExceedsAsWritten(distance)
      && d.insert.value == RecordRow(nextId, user.id, c.courseId, now)
      && d.outcome.response == Response(200, Marked("Attendance marked successfully", JsonDistance(distance), c.courseId, now))
      && !AlreadyMarked(records, user.id, c.courseId, DayOf(now, SERVER_DAY_OFFSET), SERVER_DAY_OFFSET)
    ensures d.insert.None? ==> d.outcome.response.status != 200
  {
    if user.userType != Str("student") then Reply(Msg(403, "Access denied: Students only"))
    else if ValidationError(body, REDEEM_FIELDS).Some? then Reply(Msg(400, ValidationError(body, REDEEM_FIELDS).value))
    else
      var cleaned := Normalize(ToString(Get(body, "code")));
      FirstLiveIsHead(codes, cleaned, now);
      match FirstLive(codes, cleaned, now)
      case None => Reply(ServerUnmatchedAsWritten())
      case Some(c) =>
        var distance := DistanceTo(lat, lon, c, haversine);
        if ExceedsAsWritten(distance) then
          Reply(Msg(403, TooFarText(distance) + ". Maximum allowed distance: 100m"))
        else if AlreadyMarked(records, user.id, c.courseId, DayOf(now, SERVER_DAY_OFFSET), SERVER_DAY_OFFSET) then
          Reply(Msg(409, "Attendance already marked for today"))
        else
          Decision(Returned(Response(200, Marked("Attendance marked successfully", JsonDistance(distance), c.courseId, now))),
                   Some(RecordRow(nextId, user.id, c.courseId, now)))
  }

  /**
   * The server route as evidently intended: an unmatched code gets the 400
   * of `ServerUnmatched`, and a NaN distance is refused at the geofence.
   * Every other request is decided as written.
   */
  function CorrectedServerRedeem(user: Claims, body: map<string, Value>, lat: Number, lon: Number, now: int,
                                 codes: seq<CodeRow>, records: seq<RecordRow>, nextId: int,
                                 haversine: (real, real, real, real) -> real): (d: Decision<RecordRow>)
    ensures d.outcome.Returned?
    ensures d.outcome.response.status != 500
    ensures d.insert.Some? ==>
      && d == ServerRedeem(user, body, lat, lon, now, codes, records, nextId, haversine)
      && FirstLive(codes, Normalize(ToString(Get(body, "code"))), now).Some?
      && var distance := DistanceTo(lat, lon, FirstLive(codes, Normalize(ToString(Get(body, "code"))), now).value, haversine);
      && distance.Meters? && distance.m <= MAX_DISTANCE
      && d.outcome.response.body.distance == Some(Round(distance.m))
    ensures d.insert.None? ==> d.outcome.response.status != 200
  {
    var cleaned := Normalize(ToString(Get(body, "code")));
    FirstLiveIsHead(codes, cleaned, now);
    if user.userType == Str("student") && ValidationError(body, REDEEM_FIELDS).None? && FirstLive(codes, cleaned, now).None? then
      Reply(ServerUnmatched(codes, cleaned, now))
    else if ReachesGateWithNaN(user, body, lat, lon, now, codes, haversine) then
      Reply(Msg(403, TooFarText(NotANumber) + ". Maximum allowed distance: 100m"))
    else
      ServerRedeem(user, body, lat, lon, now, codes, records, nextId, haversine)
  }

  /** Every unmatched or expired code gets 500 from the route as written, and 400 from the corrected one. */
  lemma UnmatchedCodeAnswers500AsWritten(user: Claims, body: map<string, Value>, lat: Number, lon: Number, now: int,
                                         codes: seq<CodeRow>, records: seq<RecordRow>, nextId: int,
                                         haversine: (real, real, real, real) -> real)
    requires user.userType == Str("student") && ValidationError(body, REDEEM_FIELDS).None?
    requires FirstLive(codes, Normalize(ToString(Get(body, "code"))), now).None?
    ensures ServerRedeem(user, body, lat, lon, now, codes, records, nextId, haversine).outcome.response.status == 500
    ensures CorrectedServerRedeem(user, body, lat, lon, now, codes, records, nextId, haversine).outcome.response.status == 400
  {
  }

  /**
   * The route as written marks a student whose latitude is "Infinity" and
   * answers 200 with a `null` distance; the corrected route refuses with 403.
   */
  lemma ServerNaNDistanceMarkedAsWritten(user: Claims, body: map<string, Value>, lon: Number, now: int,
                                         codes: seq<CodeRow>, records: seq<RecordRow>, nextId: int,
                                         haversine: (real, real, real, real) -> real)
    requires user.userType == Str("student") && ValidationError(body, REDEEM_FIELDS).None?
    requires NumberTruthy(lon)
    requires FirstLive(codes, Normalize(ToString(Get(body, "code"))), now).Some?
    requires FirstLive(codes, Normalize(ToString(Get(body, "code"))), now).value.lat != 0.0
    requires FirstLive(codes, Normalize(ToString(Get(body, "code"))), now).value.lon != 0.0
    requires !AlreadyMarked(records, user.id, FirstLive(codes, Normalize(ToString(Get(body, "code"))), now).value.courseId,
                            DayOf(now, SERVER_DAY_OFFSET), SERVER_DAY_OFFSET)
    ensures var c := FirstLive(codes, Normalize(ToString(Get(body, "code"))), now).value;
      ServerRedeem(user, body, PosInf, lon, now, codes, records, nextId, haversine)
        == Decision(Returned(Response(200, Marked("Attendance marked successfully", None, c.courseId, now))),
                    Some(RecordRow(nextId, user.id, c.courseId, now)))
    ensures CorrectedServerRedeem(user, body, PosInf, lon, now, codes, records, nextId, haversine)
      == Reply(Msg(403, TooFarText(NotANumber) + ". Maximum allowed distance: 100m"))
  {
    var c := FirstLive(codes, Normalize(ToString(Get(body, "code"))), now).value;
    InfiniteCoordinatePassesAsWrittenGate(lon, Number.Finite(c.lat), Number.Finite(c.lon), haversine);
  }

  /** The route against the store, as written: the ledger grows by the decided row and nothing else changes. */
  method ServerMarkAttendance(db: Db, user: Claims, body: map<string, Value>, lat: Number, lon: Number, now: int,
                              haversine: (real, real, real, real) -> real)
    returns (resp: Response)
    requires db.Valid()
    modifies db
    ensures db.Valid()
    ensures var d := ServerRedeem(user, body, lat, lon, now, old(db.codes), old(db.records), |old(db.records)| + 1, haversine);
      resp == ExpressGuard(d.outcome) && db.records == old(db.records) + d.insert.ToSeq()
    ensures db.codes == old(db.codes) && db.courses == old(db.courses) && db.students == old(db.students)
    ensures db.lecturers == old(db.lecturers) && db.admins == old(db.admins)
  {
    ghost var d := ServerRedeem(user, body, lat, lon, now, db.codes, db.records, |db.records| + 1, haversine);
    if user.userType != Str("student") {
      return Msg(403, "Access denied: Students only");
    }
    var validationError := ValidateInput(body, REDEEM_FIELDS);
    if validationError.Some? {
      return Msg(400, validationError.value);
    }
    var studentId := user.id;
    var cleanedCode := Normalize(ToString(Get(body, "code")));
    var found := FirstLive(db.codes, cleanedCode, now);
    if found.None? {
      return ServerUnmatchedAsWritten();
    }
    var validCode := found.value;
    var distance := DistanceTo(lat, lon, validCode, haversine);
    if ExceedsAsWritten(distance) {
      return Msg(403, TooFarText(distance) + ". Maximum allowed distance: 100m");
    }
    if AlreadyMarked(db.records, studentId, validCode.courseId, DayOf(now, SERVER_DAY_OFFSET), SERVER_DAY_OFFSET) {
      return Msg(409, "Attendance already marked for today");
    }
    var row := RecordRow(|db.records| + 1, studentId, validCode.courseId, now);
    assert d.insert == Some(row);
    db.InsertRecord(row);
    resp := Response(200, Marked("Attendance marked successfully", JsonDistance(distance), validCode.courseId, now));
  }

  /** Already marked on this UTC+01:00 day (and near enough): 409 from the server route. */
  lemma ServerRedeemAlreadyMarked(user: Claims, body: map<string, Value>, lat: Number, lon: Number, now: int,
                                  codes: seq<CodeRow>, records: seq<RecordRow>, nextId: int,
                                  haversine: (real, real, real, real) -> real)
    requires user.userType == Str("student") && ValidationError(body, REDEEM_FIELDS).None?
    requires FirstLive(codes, Normalize(ToString(Get(body, "code"))), now).Some?
    requires !ExceedsAsWritten(DistanceTo(lat, lon, FirstLive(codes, Normalize(ToString(Get(body, "code"))), now).value, haversine))
    requires AlreadyMarked(records, user.id, FirstLive(codes, Normalize(ToString(Get(body, "code"))), now).value.courseId,
                           DayOf(now, SERVER_DAY_OFFSET), SERVER_DAY_OFFSET)
    ensures ServerRedeem(user, body, lat, lon, now, codes, records, nextId, haversine)
      == Reply(Msg(409, "Attendance already marked for today"))
  {
  }

  /** The server route keeps one record per student, course and UTC+01:00 day, and repeating a success gives 409. */
  lemma ServerRedeemKeepsOnePerDay(user: Claims, body: map<string, Value>, lat: Number, lon: Number,
                                   now: int, codes: seq<CodeRow>, records: seq<RecordRow>,
                                   nextId: int, haversine: (real, real, real, real) -> real)
    requires OnePerDay(records, SERVER_DAY_OFFSET)
    ensures var d := ServerRedeem(user, body, lat, lon, now, codes, records, nextId, haversine);
      OnePerDay(records + d.insert.ToSeq(), SERVER_DAY_OFFSET)
      && (d.insert.Some? ==>
            ServerRedeem(user, body, lat, lon, now, codes, records + [d.insert.value], nextId + 1, haversine)
              == Reply(Msg(409, "Attendance already marked for today")))
  {
    var d := ServerRedeem(user, body, lat, lon, now, codes, records, nextId, haversine);
    if d.insert.Some? {
      var r := d.insert.value;
      AppendKeepsOnePerDay(records, r, SERVER_DAY_OFFSET);
      var code := Normalize(ToString(Get(body, "code")));
      FirstLiveIsHead(codes, code, now);
      var c := FirstLive(codes, code, now).value;
      var rs := records + [r];
      assert SameDay(rs[|records|], user.id, c.courseId, DayOf(now, SERVER_DAY_OFFSET), SERVER_DAY_OFFSET);
      ServerRedeemAlreadyMarked(user, body, lat, lon, now, codes, rs, nextId + 1, haversine);
    }
  }

  /** The two versions admit the same requests past the role and field gates, except for the dedup day. */
  lemma VersionsShareLookupAndGeofence(user: Claims, body: map<string, Value>, lat: Number, lon: Number, now: int,
                                       sessionOffset: int, codes: seq<CodeRow>, records: seq<RecordRow>, nextId: int,
                                       haversine: (real, real, real, real) -> real)
    requires user.userType == Str("student")
    ensures (Redeem("POST", user, body, lat, lon, now, sessionOffset, codes, records, nextId, haversine).insert.Some?
      && ServerRedeem(user, body, lat, lon, now, codes, records, nextId, haversine).insert.Some?) ==>
      Redeem("POST", user, body, lat, lon, now, sessionOffset, codes, records, nextId, haversine).insert
        == ServerRedeem(user, body, lat, lon, now, codes, records, nextId, haversine).insert
  {
  }
}
