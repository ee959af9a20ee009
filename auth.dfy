/**
 * The Bearer-header gate of lib/auth.js, which the `verifyToken`
 * middleware of server.js repeats: a header that does not start with
 * `Bearer ` is refused with 403, a token the verifier rejects with 401,
 * and otherwise the wrapped handler runs with the decoded claims.
 */
module Auth {
  import opened Wrappers
  import opened Js
  import opened Http

  /** The payload of a signed token: the row id, the user type and the matriculation number or email. */
  datatype Claims = Claims(id: int, userType: Value, ident: string)

  /** The scheme prefix, matched case-sensitively. */
  const BEARER: string := "Bearer "

  predicate StartsWith(s: string, prefix: string) {
    |prefix| <= |s| && s[..|prefix|] == prefix
  }

  /** The prefix's space is the first space of the header. */
  lemma FirstSpaceEndsPrefix(header: string)
    requires StartsWith(header, BEARER)
    ensures IndexOf(header, ' ') == |BEARER| - 1
  {
    assert forall i :: 0 <= i <= 6 ==> header[i] == BEARER[i];
    IndexOfAt(header, ' ', 6);
  }

  /** `authHeader.split(' ')[1]`: the second space-separated segment. */
  function BearerToken(header: string): (token: string)
    requires StartsWith(header, BEARER)
    ensures forall j :: 0 <= j < |token| ==> token[j] != ' '
  {
    FirstSpaceEndsPrefix(header);
    Split(header, ' ')[1]
  }

  /** The token is the first space-separated segment of what follows the prefix. */
  lemma BearerTokenAfterPrefix(header: string)
    requires StartsWith(header, BEARER)
    ensures BearerToken(header) == Split(header[|BEARER|..], ' ')[0]
  {
    FirstSpaceEndsPrefix(header);
    assert Split(header, ' ') == [header[..6]] + Split(header[7..], ' ');
  }

  /** What follows the prefix splits at its first space into the token and the rest. */
  lemma PrefixThenSegment(header: string)
    requires StartsWith(header, BEARER)
    ensures var tail := header[|BEARER|..];
      var k := IndexOf(tail, ' ');
      header == BEARER + tail[..k] + tail[k..] && (tail[k..] == [] || tail[k..][0] == ' ')
  {
    var tail := header[7..];
    assert header == header[..7] + tail;
  }

  /** The header is the prefix, the token, and either nothing or a space and whatever follows. */
  lemma BearerTokenShape(header: string)
    requires StartsWith(header, BEARER)
    ensures exists rest :: header == BEARER + BearerToken(header) + rest && (rest == [] || rest[0] == ' ')
  {
    var tail := header[7..];
    var k := IndexOf(tail, ' ');
    BearerTokenAfterPrefix(header);
    assert Split(tail, ' ')[0] == tail[..k];
    PrefixThenSegment(header);
    var rest := tail[k..];
    assert header == BEARER + BearerToken(header) + rest;
  }

  /** A header made of the prefix and a token without spaces yields exactly that token. */
  lemma BearerTokenOfSigned(token: string)
    requires forall j :: 0 <= j < |token| ==> token[j] != ' '
    ensures StartsWith(BEARER + token, BEARER)
    ensures BearerToken(BEARER + token) == token
  {
    var header := BEARER + token;
    assert header[..7] == BEARER;
    BearerTokenAfterPrefix(header);
    assert header[7..] == token;
    assert IndexOf(token, ' ') == |token|;
    assert Split(token, ' ') == [token];
  }

  /** The result of the gate: a response that ends the request, or the claims the handler receives. */
  datatype Gate = Rejected(response: Response) | Admitted(user: Claims)

  /**
   * `verifyToken`: `header` is `req.headers.authorization` and `verify` is
   * `jwt.verify` with the server's secret (None when it throws).
   */
  function VerifyToken(header: Option<string>, verify: string -> Option<Claims>): (g: Gate)
    ensures header.None? ==> g == Rejected(Msg(403, "Token required"))
    ensures header.Some? && !StartsWith(header.value, BEARER) ==> g == Rejected(Msg(403, "Token required"))
    ensures header.Some? && StartsWith(header.value, BEARER) ==>
      match verify(BearerToken(header.value))
      case None => g == Rejected(Msg(401, "Invalid token"))
      case Some(claims) => g == Admitted(claims)
  {
    if header.None? || header.value == "" || !StartsWith(header.value, BEARER) then
      Rejected(Msg(403, "Token required"))
    else
      match verify(BearerToken(header.value))
      case None => Rejected(Msg(401, "Invalid token"))
      case Some(claims) => Admitted(claims)
  }

  /** The handler runs exactly when the header carries the prefix and a token the verifier accepts. */
  lemma AdmittedIff(header: Option<string>, verify: string -> Option<Claims>)
    ensures VerifyToken(header, verify).Admitted? <==>
      header.Some? && StartsWith(header.value, BEARER) && verify(BearerToken(header.value)).Some?
  {
  }

  /** A refusal is 403 or 401, never anything else. */
  lemma RejectionStatus(header: Option<string>, verify: string -> Option<Claims>)
    ensures VerifyToken(header, verify).Rejected? ==>
      VerifyToken(header, verify).response.status in {401, 403}
  {
  }

  /** A token issued by `sign` and presented as `Bearer <token>` admits its own claims when `verify` inverts `sign`. */
  lemma SignedTokenAdmits(claims: Claims, sign: Claims -> string, verify: string -> Option<Claims>)
    requires verify(sign(claims)) == Some(claims)
    requires forall j :: 0 <= j < |sign(claims)| ==> sign(claims)[j] != ' '
    ensures VerifyToken(Some(BEARER + sign(claims)), verify) == Admitted(claims)
  {
    BearerTokenOfSigned(sign(claims));
  }

  /** A route behind the gate: the handler's response when admitted, the gate's otherwise. */
  function Guarded(g: Gate, handler: Claims -> Response): (r: Response)
    ensures g.Rejected? ==> r == g.response
    ensures g.Admitted? ==> r == handler(g.user)
  {
    match g
    case Rejected(resp) => resp
    case Admitted(user) => handler(user)
  }
}
