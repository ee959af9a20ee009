/**
 * Signing in: the serverless `api/login.js` handler and the `/api/login`
 * route of server.js. A student is looked up by matriculation number; a
 * lecturer or an admin by email, and the password is compared with the
 * stored digest. A success carries a signed token whose claims the Bearer
 * gate hands back to the protected routes.
 */
module Login {
  import opened Wrappers
  import opened Seqs
  import opened Js
  import opened Store
  import opened Http
  import opened Utils
  import opened Auth
  import Registration

  /** The fields both handlers destructure from the body. */
  datatype LoginForm = LoginForm(userType: Value, matNo: Value, email: Value, password: Value)

  function LoginFormOf(body: map<string, Value>): LoginForm {
    LoginForm(Get(body, "userType"), Get(body, "matNo"), Get(body, "email"), Get(body, "password"))
  }

  /** The fields of the email/password path, in the order both validations check them. */
  const PASSWORD_FIELDS: seq<string> := ["email", "password"]

  /** A row of the table the email/password path reads, lecturers or admins, and its view without the digest. */
  datatype Account = Account(id: int, email: string, passwordHash: Digest, view: UserView)

  function LecturerAccount(l: LecturerRow): Account {
    Account(l.id, l.email, l.passwordHash, LecturerView(l.id, l.staffId, l.name, l.email, l.phone))
  }

  function AdminAccount(a: AdminRow): Account {
    Account(a.id, a.email, a.passwordHash, AdminView(a.id, a.name, a.email))
  }

  /** `userType === 'lecturer' ? 'lecturers' : 'admins'`. */
  function AccountsOf(userType: Value, lecturers: seq<LecturerRow>, admins: seq<AdminRow>): (r: seq<Account>)
    ensures userType == Str("lecturer") ==>
      |r| == |lecturers| && forall i :: 0 <= i < |r| ==> r[i] == LecturerAccount(lecturers[i])
    ensures userType != Str("lecturer") ==>
      |r| == |admins| && forall i :: 0 <= i < |r| ==> r[i] == AdminAccount(admins[i])
  {
    if userType == Str("lecturer") then seq(|lecturers|, i requires 0 <= i < |lecturers| => LecturerAccount(lecturers[i]))
    else seq(|admins|, i requires 0 <= i < |admins| => AdminAccount(admins[i]))
  }

  function MatNoIs(matNo: string): StudentRow -> bool {
    (s: StudentRow) => s.matNo == matNo
  }

  function EmailIs(email: string): Account -> bool {
    (a: Account) => a.email == email
  }

  /**
   * `bcrypt.compare(password, digest)`: a string candidate matches exactly
   * the password that was hashed; any other value makes the call reject
   * (None).
   */
  function Compare(password: Value, digest: Digest): (r: Option<bool>)
    ensures r.None? <==> !password.Str?
    ensures r == Some(true) <==> password.Str? && digest == Hashed(password.s)
  {
    if password.Str? then Some(digest == Hashed(password.s)) else None
  }

  const COMPARE_REJECTS: string := "data and hash must be strings"

  /** A lookup that ends the request with `outcome`, or the row it found. */
  datatype Lookup<R> = Refused(outcome: Outcome) | Found(row: R)

  /** The student lookup both handlers share: matNo present, `matNo.trim()`, the first row with that number. */
  function FindStudent(form: LoginForm, students: seq<StudentRow>): (l: Lookup<StudentRow>)
    ensures !Truthy(form.matNo) ==> l == Refused(Returned(Msg(400, "Matriculation number is required")))
    ensures Truthy(form.matNo) && !form.matNo.Str? ==> l == Refused(Threw(TypeError("matNo" + ".trim")))
    ensures l.Found? <==>
      Truthy(form.matNo) && form.matNo.Str? && exists s :: s in students && s.matNo == Trim(form.matNo.s)
    ensures l.Found? ==> l.row in students && l.row.matNo == Trim(form.matNo.s)
    ensures Truthy(form.matNo) && form.matNo.Str? && l.Refused? ==> l.outcome == Returned(Msg(404, "Student not found"))
  {
    if !Truthy(form.matNo) then Refused(Returned(Msg(400, "Matriculation number is required")))
    else
      match TrimValue(form.matNo, "matNo")
      case TrimFails(e) => Refused(Threw(e))
      case Trimmed(matNo) =>
        match First(students, MatNoIs(matNo))
        case None => Refused(Returned(Msg(404, "Student not found")))
        case Some(s) => Found(s)
  }


  /**
   * The account lookup both handlers share once the fields are validated:
   * `email.trim()`, the first row with that email, then `bcrypt.compare`
   * of `password` with its digest. Both handlers pass the password as it
   * was sent.
   */
  function FindAccount(email: Value, password: Value, accounts: seq<Account>): (l: Lookup<Account>)
    ensures !email.Str? ==> l == Refused(Threw(TypeError("email" + ".trim")))
    ensures l.Found? ==>
      && l.row in accounts && l.row.email == Trim(email.s)
      && password.Str? && l.row.passwordHash == Hashed(password.s)
    ensures email.Str? ==>
      (l == Refused(Returned(Msg(404, "User not found"))) <==> forall a :: a in accounts ==> a.email != Trim(email.s))
    ensures l == Refused(Returned(Msg(401, "Invalid credentials"))) ==>
      && email.Str? && password.Str?
      && exists a :: a in accounts && a.email == Trim(email.s) && a.passwordHash != Hashed(password.s)
    ensures email.Str? && password.Str? && l.Refused? ==>
      l.outcome == Returned(Msg(404, "User not found")) || l.outcome == Returned(Msg(401, "Invalid credentials"))
  {
    match TrimValue(email, "email")
    case TrimFails(e) => Refused(Threw(e))
    case Trimmed(e) =>
      match First(accounts, EmailIs(e))
      case None => Refused(Returned(Msg(404, "User not found")))
      case Some(a) =>
        match Compare(password, a.passwordHash)
        case None => Refused(Threw(InvalidArgument(COMPARE_REJECTS)))
        case Some(false) => Refused(Returned(Msg(401, "Invalid credentials")))
        case Some(true) => Found(a)
  }

  /** No two accounts of a table share an email. */
  predicate EmailsUnique(accounts: seq<Account>) {
    forall i, j :: 0 <= i < j < |accounts| ==> accounts[i].email != accounts[j].email
  }

  /** With one account per email, the lookup settles on the account with that email: found when the digest matches, 401 otherwise. */
  lemma FindAccountUnique(email: Value, password: Value, accounts: seq<Account>, k: nat)
    requires EmailsUnique(accounts)
    requires email.Str? && password.Str?
    requires k < |accounts| && accounts[k].email == Trim(email.s)
    ensures accounts[k].passwordHash == Hashed(password.s) ==> FindAccount(email, password, accounts) == Found(accounts[k])
    ensures accounts[k].passwordHash != Hashed(password.s) ==>
      FindAccount(email, password, accounts) == Refused(Returned(Msg(401, "Invalid credentials")))
  {
    FirstIndexUnique(accounts, EmailIs(Trim(email.s)), k);
    assert First(accounts, EmailIs(Trim(email.s))) == Some(accounts[k]);
  }

  /** The claims of a student token: `{ id, type: 'student', matNo }`. */
  function StudentClaims(s: StudentRow): Claims {
    Claims(s.id, Str("student"), s.matNo)
  }

  /** The claims of a lecturer or admin token: `{ id, type: userType, email }`. */
  function AccountClaims(a: Account, userType: Value): Claims {
    Claims(a.id, userType, a.email)
  }

  const FACE_CHECK_TEXT: string := "Student data retrieved " + "for face verification"

  /** `b` answers a student sign-in: a student with the trimmed number exists, and `b` carries that student's token and face image. */
  ghost predicate StudentAnswer(b: Body, matNo: Value, students: seq<StudentRow>, sign: Claims -> string) {
    && matNo.Str?
    && exists s :: (s in students && s.matNo == Trim(matNo.s)
      && b == StudentLogin(FACE_CHECK_TEXT, sign(StudentClaims(s)), s.face, StudentSummary(s.id, s.name, s.matNo)))
  }

  /** `b` answers a server.js student sign-in: as above, with the profile in place of the face image. */
  ghost predicate StudentProfileAnswer(b: Body, matNo: Value, students: seq<StudentRow>, sign: Claims -> string) {
    && matNo.Str?
    && exists s :: (s in students && s.matNo == Trim(matNo.s)
      && b == StudentProfileLogin("Login successful", sign(StudentClaims(s)),
                                  StudentView(s.id, s.matNo, s.name, s.email, s.phone)))
  }

  /**
   * `b` answers an email/password sign-in: an account with the trimmed
   * email holds the digest of the password as sent, and `b` carries its
   * token and its view without the digest.
   */
  ghost predicate AccountAnswer(b: Body, form: LoginForm, accounts: seq<Account>, sign: Claims -> string) {
    && form.email.Str? && form.password.Str?
    && exists a :: (a in accounts && a.email == Trim(form.email.s) && a.passwordHash == Hashed(form.password.s)
      && b == UserLogin("Login successful", sign(AccountClaims(a, form.userType)), a.view))
  }

  /** The email/password path once the fields are validated: look the account up, then sign its claims. */
  function AccountLogin(form: LoginForm, accounts: seq<Account>, sign: Claims -> string): (o: Outcome)
    requires form.email.Str?
    ensures o.Threw? ==> !form.password.Str? && o == Threw(InvalidArgument(COMPARE_REJECTS))
    ensures o.Returned? ==> o.response.status in {200, 401, 404}
    ensures o.Returned? && o.response.status == 200 ==> AccountAnswer(o.response.body, form, accounts, sign)
    ensures FindAccount(form.email, form.password, accounts).Refused? ==>
      o == FindAccount(form.email, form.password, accounts).outcome
    ensures FindAccount(form.email, form.password, accounts).Found? <==> o.Returned? && o.response.status == 200
  {
    match FindAccount(form.email, form.password, accounts)
    case Refused(r) => r
    case Found(a) =>
      var b := UserLogin("Login successful", sign(AccountClaims(a, form.userType)), a.view);
      assert AccountAnswer(b, form, accounts, sign);
      Returned(Response(200, b))
  }

  /** The student path of api/login.js: look the student up, then hand back the face image with a signed token. */
  function ApiStudentLogin(form: LoginForm, students: seq<StudentRow>, sign: Claims -> string): (o: Outcome)
    ensures o.Threw? ==> o == Threw(TypeError("matNo" + ".trim"))
    ensures o.Returned? ==> o.response.status in {200, 400, 404}
    ensures o.Returned? && o.response.status == 200 ==> StudentAnswer(o.response.body, form.matNo, students, sign)
    ensures FindStudent(form, students).Refused? ==> o == FindStudent(form, students).outcome
    ensures FindStudent(form, students).Found? <==> o.Returned? && o.response.status == 200
  {
    match FindStudent(form, students)
    case Refused(r) => r
    case Found(s) =>
      var b := StudentLogin(FACE_CHECK_TEXT, sign(StudentClaims(s)), s.face, StudentSummary(s.id, s.name, s.matNo));
      assert StudentAnswer(b, form.matNo, students, sign);
      Returned(Response(200, b))
  }

  /** The student path of server.js: look the student up, then hand back the profile with a signed token. */
  function ServerStudentLogin(form: LoginForm, students: seq<StudentRow>, sign: Claims -> string): (o: Outcome)
    ensures o.Threw? ==> o == Threw(TypeError("matNo" + ".trim"))
    ensures o.Returned? ==> o.response.status in {200, 400, 404}
    ensures o.Returned? && o.response.status == 200 ==> StudentProfileAnswer(o.response.body, form.matNo, students, sign)
    ensures FindStudent(form, students).Refused? ==> o == FindStudent(form, students).outcome
    ensures FindStudent(form, students).Found? <==> o.Returned? && o.response.status == 200
  {
    match FindStudent(form, students)
    case Refused(r) => r
    case Found(s) =>
      var b := StudentProfileLogin("Login successful", sign(StudentClaims(s)),
                                   StudentView(s.id, s.matNo, s.name, s.email, s.phone));
      assert StudentProfileAnswer(b, form.matNo, students, sign);
      Returned(Response(200, b))
  }

  /**
   * api/login.js: OPTIONS answers 200, other methods but POST 405. A
   * student gets the stored face image for the comparison the browser
   * makes; every other `userType` takes the email/password path against
   * lecturers when it is `lecturer` and admins otherwise. `sign` is
   * `jwt.sign` with the server's secret. Only a non-string matriculation
   * number can make it throw.
   */
  function ApiLogin(verb: string, body: map<string, Value>, students: seq<StudentRow>, lecturers: seq<LecturerRow>,
                    admins: seq<AdminRow>, sign: Claims -> string): (o: Outcome)
    ensures verb == "OPTIONS" ==> o == Returned(Response(200, Empty))
    ensures verb != "OPTIONS" && verb != "POST" ==> o == Returned(Msg(405, "Method Not Allowed"))
    ensures o.Threw? ==>
      verb == "POST" && Get(body, "userType") == Str("student") && o == Threw(TypeError("matNo" + ".trim"))
    ensures o.Returned? ==> o.response.status in {200, 400, 401, 404, 405}
    ensures o.Returned? && o.response.status == 200 && verb == "POST" ==>
      if Get(body, "userType") == Str("student") then StudentAnswer(o.response.body, Get(body, "matNo"), students, sign)
      else AccountAnswer(o.response.body, LoginFormOf(body), AccountsOf(Get(body, "userType"), lecturers, admins), sign)
    ensures verb == "POST" && Get(body, "userType") == Str("student") ==>
      var l := FindStudent(LoginFormOf(body), students);
      (l.Refused? ==> o == l.outcome) && (l.Found? <==> o.Returned? && o.response.status == 200)
    ensures verb == "POST" && Get(body, "userType") != Str("student") && StringValidationError(body, PASSWORD_FIELDS).Some? ==>
      o == Returned(Msg(400, StringValidationError(body, PASSWORD_FIELDS).value))
    ensures verb == "POST" && Get(body, "userType") != Str("student") && StringValidationError(body, PASSWORD_FIELDS).None? ==>
      var l := FindAccount(Get(body, "email"), Get(body, "password"), AccountsOf(Get(body, "userType"), lecturers, admins));
      (l.Refused? ==> o == l.outcome) && (l.Found? <==> o.Returned? && o.response.status == 200)
  {
    var form := LoginFormOf(body);
    if verb == "OPTIONS" then Returned(Response(200, Empty))
    else if verb != "POST" then Returned(Msg(405, "Method Not Allowed"))
    else if form.userType == Str("student") then ApiStudentLogin(form, students, sign)
    else
      match StringValidationError(body, PASSWORD_FIELDS)
      case Some(m) => Returned(Msg(400, m))
      case None =>
        assert !MissingOrNotString(Get(body, PASSWORD_FIELDS[0])) && !MissingOrNotString(Get(body, PASSWORD_FIELDS[1]));
        AccountLogin(form, AccountsOf(form.userType, lecturers, admins), sign)
  }

  /** The response of api/login.js once `asyncHandler` has caught a throw. */
  function ApiLoginResponse(verb: string, body: map<string, Value>, students: seq<StudentRow>, lecturers: seq<LecturerRow>,
                            admins: seq<AdminRow>, sign: Claims -> string): (r: Response)
    ensures r.status in {200, 400, 401, 404, 405, 500}
    ensures r.status == 500 ==> r == Msg(500, ErrorMessage(TypeError("matNo" + ".trim")))
  {
    MessageGuard(ApiLogin(verb, body, students, lecturers, admins, sign))
  }

  /**
   * A lecturer or admin whose account holds the digest of the password
   * sent, and whose email no other account of that table shares, signs in
   * through api/login.js.
   */
  lemma ApiLoginAdmitsAccount(body: map<string, Value>, students: seq<StudentRow>, lecturers: seq<LecturerRow>,
                              admins: seq<AdminRow>, sign: Claims -> string, k: nat)
    requires Get(body, "userType") != Str("student")
    requires !MissingOrNotString(Get(body, "email")) && !MissingOrNotString(Get(body, "password"))
    requires EmailsUnique(AccountsOf(Get(body, "userType"), lecturers, admins))
    requires k < |AccountsOf(Get(body, "userType"), lecturers, admins)|
    requires AccountsOf(Get(body, "userType"), lecturers, admins)[k].email == Trim(Get(body, "email").s)
    requires AccountsOf(Get(body, "userType"), lecturers, admins)[k].passwordHash == Hashed(Get(body, "password").s)
    ensures var a := AccountsOf(Get(body, "userType"), lecturers, admins)[k];
      ApiLogin("POST", body, students, lecturers, admins, sign)
        == Returned(Response(200, UserLogin("Login successful", sign(AccountClaims(a, Get(body, "userType"))), a.view)))
  {
    var form := LoginFormOf(body);
    var accounts := AccountsOf(form.userType, lecturers, admins);
    assert StringValidationError(body, PASSWORD_FIELDS).None?;
    FindAccountUnique(form.email, form.password, accounts, k);
  }

  /** `userType` is one of the three `/api/login` of server.js accepts. */
  predicate KnownUserType(v: Value) {
    v == Str("student") || v == Str("lecturer") || v == Str("admin")
  }

  /**
   * `POST /api/login` of server.js: an unknown `userType` is refused
   * first; the student answer carries the row without its face image;
   * the validation is the `toString` one, so a non-string email or
   * password reaches `trim` or `bcrypt.compare` and throws.
   */
  function ServerLogin(body: map<string, Value>, students: seq<StudentRow>, lecturers: seq<LecturerRow>,
                       admins: seq<AdminRow>, sign: Claims -> string): (o: Outcome)
    ensures !KnownUserType(Get(body, "userType")) ==> o == Returned(Msg(400, "Invalid user type"))
    ensures o.Threw? ==>
      if Get(body, "userType") == Str("student") then o == Threw(TypeError("matNo" + ".trim"))
      else o == Threw(TypeError("email" + ".trim")) || o == Threw(InvalidArgument(COMPARE_REJECTS))
    ensures o.Returned? ==> o.response.status in {200, 400, 401, 404}
    ensures o.Returned? && o.response.status == 200 ==>
      if Get(body, "userType") == Str("student") then StudentProfileAnswer(o.response.body, Get(body, "matNo"), students, sign)
      else AccountAnswer(o.response.body, LoginFormOf(body), AccountsOf(Get(body, "userType"), lecturers, admins), sign)
    ensures Get(body, "userType") == Str("student") ==>
      var l := FindStudent(LoginFormOf(body), students);
      (l.Refused? ==> o == l.outcome) && (l.Found? <==> o.Returned? && o.response.status == 200)
    ensures (KnownUserType(Get(body, "userType")) && Get(body, "userType") != Str("student")
             && ValidationError(body, PASSWORD_FIELDS).Some?) ==>
      o == Returned(Msg(400, ValidationError(body, PASSWORD_FIELDS).value))
    ensures (KnownUserType(Get(body, "userType")) && Get(body, "userType") != Str("student")
             && ValidationError(body, PASSWORD_FIELDS).None?) ==>
      var l := FindAccount(Get(body, "email"), Get(body, "password"), AccountsOf(Get(body, "userType"), lecturers, admins));
      (l.Refused? ==> o == l.outcome) && (l.Found? <==> o.Returned? && o.response.status == 200)
  {
    var form := LoginFormOf(body);
    if !KnownUserType(form.userType) then Returned(Msg(400, "Invalid user type"))
    else if form.userType == Str("student") then ServerStudentLogin(form, students, sign)
    else
      match ValidationError(body, PASSWORD_FIELDS)
      case Some(m) => Returned(Msg(400, m))
      case None =>
        if !form.email.Str? then Threw(TypeError("email" + ".trim"))
        else AccountLogin(form, AccountsOf(form.userType, lecturers, admins), sign)
  }

  /** The response of `/api/login` once Express has turned a throw into its error page. */
  function ServerLoginResponse(body: map<string, Value>, students: seq<StudentRow>, lecturers: seq<LecturerRow>,
                               admins: seq<AdminRow>, sign: Claims -> string): (r: Response)
    ensures r.status in {200, 400, 401, 404, 500}
    ensures r.status == 500 ==> r == Response(500, ErrorPage)
  {
    ExpressGuard(ServerLogin(body, students, lecturers, admins, sign))
  }

  /** A non-zero number as `email` passes the `toString` validation of server.js but not the string one of api/login.js. */
  lemma NumericEmailValidation(body: map<string, Value>, n: int)
    requires Get(body, "email") == Int(n) && n != 0
    requires Get(body, "password").Str? && !AllWhitespace(Get(body, "password").s)
    ensures ValidationError(body, PASSWORD_FIELDS) == None
    ensures StringValidationError(body, PASSWORD_FIELDS) == Some("email" + " is required and cannot be empty")
  {
    TruthyNonStringNotBlank(Int(n));
    MissingIff(Get(body, "password"));
    assert !Missing(Get(body, PASSWORD_FIELDS[0])) && !Missing(Get(body, PASSWORD_FIELDS[1]));
    FirstFailingIs(body, PASSWORD_FIELDS, MissingOrNotString, 0);
  }

  /**
   * A numeric email passes the validation of server.js and then throws
   * at `email.trim()`, where api/login.js answers 400.
   */
  lemma NumericEmailDiverges(body: map<string, Value>, students: seq<StudentRow>, lecturers: seq<LecturerRow>,
                             admins: seq<AdminRow>, sign: Claims -> string, n: int)
    requires Get(body, "userType") == Str("lecturer") && Get(body, "email") == Int(n) && n != 0
    requires Get(body, "password").Str? && !AllWhitespace(Get(body, "password").s)
    ensures ServerLoginResponse(body, students, lecturers, admins, sign) == Response(500, ErrorPage)
    ensures ApiLogin("POST", body, students, lecturers, admins, sign)
      == Returned(Msg(400, "email" + " is required and cannot be empty"))
  {
    NumericEmailValidation(body, n);
    assert ServerLogin(body, students, lecturers, admins, sign) == Threw(TypeError("email" + ".trim"));
  }

  /**
   * The token of a successful email/password answer, from either handler,
   * passes the Bearer gate, which hands the protected routes the id of an
   * account with the trimmed email, the `userType` sent and that email.
   */
  lemma AccountTokenAdmits(b: Body, form: LoginForm, accounts: seq<Account>, sign: Claims -> string,
                           verify: string -> Option<Claims>)
    requires forall c :: verify(sign(c)) == Some(c)
    requires forall c, j :: 0 <= j < |sign(c)| ==> sign(c)[j] != ' '
    requires AccountAnswer(b, form, accounts, sign)
    ensures b.UserLogin?
    ensures var g := VerifyToken(Some(BEARER + b.token), verify);
      && g.Admitted? && g.user.userType == form.userType && g.user.ident == Trim(form.email.s)
      && exists a :: a in accounts && g.user.id == a.id && a.email == Trim(form.email.s)
  {
    var a :| a in accounts && a.email == Trim(form.email.s) && a.passwordHash == Hashed(form.password.s)
      && b == UserLogin("Login successful", sign(AccountClaims(a, form.userType)), a.view);
    SignedTokenAdmits(AccountClaims(a, form.userType), sign, verify);
  }

  /** Likewise for the token of a successful student answer: the gate hands back the student's id and number. */
  lemma StudentTokenAdmits(b: Body, matNo: Value, students: seq<StudentRow>, sign: Claims -> string,
                           verify: string -> Option<Claims>)
    requires forall c :: verify(sign(c)) == Some(c)
    requires forall c, j :: 0 <= j < |sign(c)| ==> sign(c)[j] != ' '
    requires StudentAnswer(b, matNo, students, sign)
    ensures b.StudentLogin?
    ensures var g := VerifyToken(Some(BEARER + b.token), verify);
      && g.Admitted? && g.user.userType == Str("student") && g.user.ident == Trim(matNo.s)
      && exists s :: s in students && g.user.id == s.id && s.matNo == Trim(matNo.s)
  {
    var s :| s in students && s.matNo == Trim(matNo.s)
      && b == StudentLogin(FACE_CHECK_TEXT, sign(StudentClaims(s)), s.face, StudentSummary(s.id, s.name, s.matNo));
    SignedTokenAdmits(StudentClaims(s), sign, verify);
  }

  /** Lecturer accounts inherit the email uniqueness the lecturer registrations keep. */
  lemma LecturerAccountsUnique(lecturers: seq<LecturerRow>, admins: seq<AdminRow>)
    requires Registration.LecturersUnique(lecturers)
    ensures EmailsUnique(AccountsOf(Str("lecturer"), lecturers, admins))
  {
    var accounts := AccountsOf(Str("lecturer"), lecturers, admins);
    forall i, j | 0 <= i < j < |accounts| ensures accounts[i].email != accounts[j].email {
      assert accounts[i].email == lecturers[i].email && accounts[j].email == lecturers[j].email;
    }
  }

  /** The lecturer a registration inserts is the last account of the lecturer table, the only one with its email. */
  lemma RegisteredLecturerAccount(form: Registration.LecturerForm, lecturers: seq<LecturerRow>, nextId: int,
                                  takenText: string, doneText: string, admins: seq<AdminRow>)
    requires Registration.LecturersUnique(lecturers)
    requires Registration.LecturerSteps(form, lecturers, nextId, takenText, doneText).insert.Some?
    ensures var row := Registration.LecturerSteps(form, lecturers, nextId, takenText, doneText).insert.value;
      var accounts := AccountsOf(Str("lecturer"), lecturers + [row], admins);
      && EmailsUnique(accounts) && |lecturers| < |accounts| && accounts[|lecturers|] == LecturerAccount(row)
      && row.email == Trim(form.email.s) && row.passwordHash == Hashed(Trim(form.password.s))
  {
    var row := Registration.LecturerSteps(form, lecturers, nextId, takenText, doneText).insert.value;
    Registration.LecturerStepsKeepUnique(form, lecturers, nextId, takenText, doneText);
    LecturerAccountsUnique(lecturers + [row], admins);
    assert (lecturers + [row])[|lecturers|] == row;
  }

  /**
   * Registration hashes `password.trim()` while sign-in compares the
   * password as sent: a lecturer who registered with a password that has
   * leading or trailing whitespace is refused with 401 by both handlers
   * when signing in with that same password.
   */
  lemma UntrimmedPasswordLocksOut(form: Registration.LecturerForm, lecturers: seq<LecturerRow>, nextId: int,
                                  takenText: string, doneText: string, body: map<string, Value>,
                                  students: seq<StudentRow>, admins: seq<AdminRow>, sign: Claims -> string)
    requires Registration.LecturersUnique(lecturers)
    requires Registration.LecturerSteps(form, lecturers, nextId, takenText, doneText).insert.Some?
    requires Get(body, "userType") == Str("lecturer")
    requires Get(body, "email") == form.email && Get(body, "password") == form.password
    requires !MissingOrNotString(form.email) && !MissingOrNotString(form.password)
    requires Trim(form.password.s) != form.password.s
    ensures var row := Registration.LecturerSteps(form, lecturers, nextId, takenText, doneText).insert.value;
      && ApiLogin("POST", body, students, lecturers + [row], admins, sign) == Returned(Msg(401, "Invalid credentials"))
      && ServerLogin(body, students, lecturers + [row], admins, sign) == Returned(Msg(401, "Invalid credentials"))
  {
    var row := Registration.LecturerSteps(form, lecturers, nextId, takenText, doneText).insert.value;
    var accounts := AccountsOf(Str("lecturer"), lecturers + [row], admins);
    RegisteredLecturerAccount(form, lecturers, nextId, takenText, doneText, admins);
    FindAccountUnique(form.email, form.password, accounts, |lecturers|);
    assert StringValidationError(body, PASSWORD_FIELDS).None?;
    assert !Missing(Get(body, PASSWORD_FIELDS[0])) && !Missing(Get(body, PASSWORD_FIELDS[1]));
  }

  /** The lecturer of the lock-out: registered with " pw" on an empty table, then signing in with " pw". */
  const LOCKED_FORM: Registration.LecturerForm :=
    Registration.LecturerForm(Str("L1"), Str("Ada"), Str("ada@uni.edu"), Str("0800"), Str(" pw"))

  const LOCKED_BODY: map<string, Value> :=
    map["userType" := Str("lecturer"), "email" := Str("ada@uni.edu"), "password" := Str(" pw")]

  /** The registration of the lock-out input succeeds. */
  lemma LockedRegistrationSucceeds()
    ensures Registration.LecturerSteps(LOCKED_FORM, [], 1, "taken", "done").insert.Some?
  {
    assert !Registration.LecturerTaken([], "L1", "ada@uni.edu");
  }

  /** The email and the password of the lock-out input pass validation, and the password is not its own trim. */
  lemma LockedFieldsShape()
    ensures !MissingOrNotString(LOCKED_FORM.email) && !MissingOrNotString(LOCKED_FORM.password)
    ensures Trim(LOCKED_FORM.password.s) != LOCKED_FORM.password.s
    ensures Get(LOCKED_BODY, "userType") == Str("lecturer")
    ensures Get(LOCKED_BODY, "email") == LOCKED_FORM.email && Get(LOCKED_BODY, "password") == LOCKED_FORM.password
  {
    var email := "ada@uni.edu";
    var password := " pw";
    assert !AllWhitespace(email) by { assert !IsWhitespace(email[0]); }
    assert !AllWhitespace(password) by { assert !IsWhitespace(password[1]); }
    TrimBlankIff(email);
    TrimBlankIff(password);
    assert Trim(password) != password by { assert IsWhitespace(password[0]); }
  }

  /** The lock-out on one input: the registration succeeds, and the sign-in with the same password answers 401. */
  lemma LeadingSpacePasswordLocksOut(sign: Claims -> string)
    ensures Registration.LecturerSteps(LOCKED_FORM, [], 1, "taken", "done").insert.Some?
    ensures var row := Registration.LecturerSteps(LOCKED_FORM, [], 1, "taken", "done").insert.value;
      ServerLogin(LOCKED_BODY, [], [row], [], sign) == Returned(Msg(401, "Invalid credentials"))
  {
    LockedRegistrationSucceeds();
    LockedFieldsShape();
    UntrimmedPasswordLocksOut(LOCKED_FORM, [], 1, "taken", "done", LOCKED_BODY, [], [], sign);
    assert [] + [Registration.LecturerSteps(LOCKED_FORM, [], 1, "taken", "done").insert.value]
      == [Registration.LecturerSteps(LOCKED_FORM, [], 1, "taken", "done").insert.value];
  }

  /** The password as registration hashes it: trimmed when it is a string. */
  function TrimmedCandidate(password: Value): Value {
    if password.Str? then Str(Trim(password.s)) else password
  }

  /**
   * The corrected account lookup: the password sent is trimmed before
   * the comparison, as registration trims it before hashing.
   */
  function CorrectedFindAccount(email: Value, password: Value, accounts: seq<Account>): (l: Lookup<Account>)
    ensures l.Found? ==>
      && l.row in accounts && email.Str? && l.row.email == Trim(email.s)
      && password.Str? && l.row.passwordHash == Hashed(Trim(password.s))
    ensures password.Str? && Trim(password.s) == password.s ==> l == FindAccount(email, password, accounts)
  {
    FindAccount(email, TrimmedCandidate(password), accounts)
  }

  /**
   * With the corrected lookup, a lecturer signs in with the email and the
   * password they registered with, whatever whitespace surrounds them.
   */
  lemma RegisteredLecturerSignsIn(form: Registration.LecturerForm, lecturers: seq<LecturerRow>, nextId: int,
                                  takenText: string, doneText: string, admins: seq<AdminRow>)
    requires Registration.LecturersUnique(lecturers)
    requires Registration.LecturerSteps(form, lecturers, nextId, takenText, doneText).insert.Some?
    ensures var row := Registration.LecturerSteps(form, lecturers, nextId, takenText, doneText).insert.value;
      CorrectedFindAccount(form.email, form.password, AccountsOf(Str("lecturer"), lecturers + [row], admins))
        == Found(LecturerAccount(row))
  {
    var row := Registration.LecturerSteps(form, lecturers, nextId, takenText, doneText).insert.value;
    RegisteredLecturerAccount(form, lecturers, nextId, takenText, doneText, admins);
    FindAccountUnique(form.email, TrimmedCandidate(form.password), AccountsOf(Str("lecturer"), lecturers + [row], admins), |lecturers|);
  }
}
