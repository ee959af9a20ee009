/**
 * Handler outcomes: the status and JSON body a handler writes, the exceptions
 * an async handler can reject with, and the three wrappers that turn a
 * rejection into a response.
 */
module Http {
  import opened Wrappers
  import opened Store
  import opened Js

  datatype Body =
    | Empty
    | Message(text: string)
    /** The 400 of `/api/register/lecturer`, with the list of missing fields. */
    | MissingFields(text: string, missing: seq<string>)
    | CodeIssued(code: string, expiresAt: Option<int>, text: string)
    /**
     * The success body of `/api/mark-attendance` in server.js; the distance
     * is `Math.round(distance)`, or JSON `null` when that is not finite.
     */
    | Marked(text: string, distance: Option<int>, courseId: int, markedAt: int)
    | CourseSummaries(summaries: seq<CourseSummary>)
    | CourseRows(rows: seq<CourseRow>)
    | Sessions(sessions: seq<Session>)
    | Records(views: seq<RecordView>)
    | CourseStats(courseCode: string, courseTitle: string, stats: Stats)
    | StudentLogin(text: string, token: string, faceScanData: string, student: StudentSummary)
    | StudentProfileLogin(text: string, token: string, profile: StudentView)
    | UserLogin(text: string, token: string, user: UserView)
    /** Express's default error page, written when a route passes an error to `next`. */
    | ErrorPage

  datatype Response = Response(status: int, body: Body)

  function Msg(status: int, text: string): Response {
    Response(status, Message(text))
  }

  /** What an async handler can reject with. */
  datatype JsError =
    /** Calling a method a value does not have, such as `.trim` on a number. */
    | TypeError(callee: string)
    /** Reading an undeclared identifier. */
    | ReferenceError(name: string)
    /** A failed statement of the store, by its error code. */
    | StoreError(code: string)
    /** A library rejecting its arguments, with its message. */
    | InvalidArgument(text: string)

  /** `error.message`. */
  function ErrorMessage(e: JsError): (m: string)
    ensures !e.InvalidArgument? ==> m != ""
  {
    match e
    case TypeError(callee) => callee + " is not a function"
    case ReferenceError(name) => name + " is not defined"
    case StoreError(code) => "store error " + code
    case InvalidArgument(text) => text
  }

  /** How an async handler settles: with the response it wrote, or by rejecting. */
  datatype Outcome = Returned(response: Response) | Threw(error: JsError)

  /** `asyncHandler` of lib/utils.js: any rejection becomes a 500 with a generic message. */
  function GenericGuard(o: Outcome): (r: Response)
    ensures o.Threw? ==> r == Msg(500, "An internal server error occurred")
    ensures o.Returned? ==> r == o.response
  {
    match o
    case Returned(resp) => resp
    case Threw(_) => Msg(500, "An internal server error occurred")
  }

  /** `asyncHandler` of api/register.js and api/login.js: a 500 carrying `error.message`. */
  function MessageGuard(o: Outcome): (r: Response)
    ensures o.Threw? && ErrorMessage(o.error) != "" ==> r == Msg(500, ErrorMessage(o.error))
    ensures o.Threw? && ErrorMessage(o.error) == "" ==> r == Msg(500, "Internal server error")
    ensures o.Returned? ==> r == o.response
  {
    match o
    case Returned(resp) => resp
    case Threw(e) =>
      var m := ErrorMessage(e);
      Msg(500, if m != "" then m else "Internal server error")
  }

  /** `asyncHandler` of server.js passes the rejection to `next`: Express answers with its 500 page. */
  function ExpressGuard(o: Outcome): (r: Response)
    ensures o.Threw? ==> r == Response(500, ErrorPage)
    ensures o.Returned? ==> r == o.response
  {
    match o
    case Returned(resp) => resp
    case Threw(_) => Response(500, ErrorPage)
  }

  /** `v.trim()` on a field that passed a truthiness check: a string is trimmed, anything else has no `trim`. */
  datatype Trimmed = Trimmed(s: string) | TrimFails(error: JsError)

  function TrimValue(v: Value, name: string): (r: Trimmed)
    ensures r.Trimmed? <==> v.Str?
    ensures r.Trimmed? ==> r.s == Trim(v.s)
    ensures r.TrimFails? ==> r.error == TypeError(name + ".trim")
  {
    match v
    case Str(s) => Trimmed(Trim(s))
    case _ => TrimFails(TypeError(name + ".trim"))
  }

  /** A handler's effect on one table: its outcome and the row it inserts, if any. */
  datatype Decision<R> = Decision(outcome: Outcome, insert: Option<R>)

  function Reply<R>(resp: Response): Decision<R> {
    Decision(Returned(resp), None)
  }

  function Throw<R>(e: JsError): Decision<R> {
    Decision(Threw(e), None)
  }
}
