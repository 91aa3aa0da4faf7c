/**
 * The authentication and authorization middleware (middleware/auth.js).
 * Token verification is a parameter: it turns a token into claims or into
 * one of the failures the JSON Web Token library throws.
 */
module AuthMiddleware {
  import opened Optional
  import opened JsString
  import opened Response

  /** The decoded token payload attached to the request as `req.user`. */
  datatype Claims = Claims(id: int, username: Option<string>, email: string, role: string)

  /** The outcome of `jwt.verify`: decoded claims, or the kind of error thrown. */
  datatype Verification =
    | Verified(claims: Claims)
    | Expired      // TokenExpiredError
    | Malformed    // JsonWebTokenError
    | Failed       // any other error

  datatype AuthDecision = Authenticated(user: Claims) | Rejected(response: Envelope)

  datatype Gate = Proceed | Deny(response: Envelope)

  const BearerPrefix := "Bearer "
  const NoTokenMessage := "No token provided. Authorization required."
  const EmptyTokenMessage := "Access denied. No token provided."
  const ExpiredMessage := "Token expired. Please login again."
  const InvalidTokenMessage := "Invalid token. Please login again."
  const FailedMessage := "Authentication failed."
  const NotLoggedInMessage := "Unauthorized. Please login first."
  const ForbiddenMessage := "Access denied. You do not have permission to perform this action."

  /** The header passes the first test: present, non-empty and starting with "Bearer ". */
  predicate HasBearerPrefix(authorization: Option<string>) {
    authorization != None && authorization.value != "" && BearerPrefix <= authorization.value
  }

  /**
   * `authHeader.split(' ')[1]`: the run of non-space characters right after
   * the prefix, empty when the prefix is followed by the end or by another
   * space.
   */
  function BearerToken(header: string): (token: string)
    requires BearerPrefix <= header
    ensures ' ' !in token
    ensures token <= header[|BearerPrefix|..]
    ensures |BearerPrefix| + |token| < |header| ==> header[|BearerPrefix| + |token|] == ' '
    ensures token == "" <==> |header| == |BearerPrefix| || header[|BearerPrefix|] == ' '
  {
    var parts := Split(header, ' ');
    SplitFirstRun(header, ' ', |BearerPrefix| - 1);  // the space ending "Bearer "
    SplitAfterFirst(header, ' ');
    assert parts[1..] == Split(header[|BearerPrefix|..], ' ');
    parts[1]
  }

  /**
   * `authenticate`: proceeds with the verified claims attached exactly when
   * the header carries a non-empty bearer token that verifies; every other
   * outcome is a 401 whose message names the reason.
   */
  function Authenticate(authorization: Option<string>, verify: string -> Verification): (d: AuthDecision)
    ensures d.Authenticated? <==>
      HasBearerPrefix(authorization) && BearerToken(authorization.value) != ""
      && verify(BearerToken(authorization.value)).Verified?
    ensures d.Authenticated? ==> d.user == verify(BearerToken(authorization.value)).claims
    ensures d.Rejected? ==> d.response.status == 401 && !d.response.success && d.response.data == None
    ensures !HasBearerPrefix(authorization) ==> d == Rejected(Error(NoTokenMessage, Some(401)))
    ensures HasBearerPrefix(authorization) && BearerToken(authorization.value) == ""
      ==> d == Rejected(Error(EmptyTokenMessage, Some(401)))
  {
    if !HasBearerPrefix(authorization) then
      Rejected(Error(NoTokenMessage, Some(401)))
    else
      var token := BearerToken(authorization.value);
      if token == "" then
        Rejected(Error(EmptyTokenMessage, Some(401)))
      else
        match verify(token)
        case Verified(claims) => Authenticated(claims)
        case Expired => Rejected(Error(ExpiredMessage, Some(401)))
        case Malformed => Rejected(Error(InvalidTokenMessage, Some(401)))
        case Failed => Rejected(Error(FailedMessage, Some(401)))
  }

  /** Each verification failure of a well-formed header maps to its own 401 message. */
  lemma AuthenticateFailureMessages(header: string, verify: string -> Verification)
    requires HasBearerPrefix(Some(header)) && BearerToken(header) != ""
    ensures verify(BearerToken(header)).Expired? ==>
      Authenticate(Some(header), verify) == Rejected(Error(ExpiredMessage, Some(401)))
    ensures verify(BearerToken(header)).Malformed? ==>
      Authenticate(Some(header), verify) == Rejected(Error(InvalidTokenMessage, Some(401)))
    ensures verify(BearerToken(header)).Failed? ==>
      Authenticate(Some(header), verify) == Rejected(Error(FailedMessage, Some(401)))
  {
  }

  /**
   * `authorize(...roles)`: proceeds exactly when a user is attached and its
   * role is one of `roles`; 401 without a user, 403 for any other role.
   */
  function Authorize(roles: seq<string>, user: Option<Claims>): (g: Gate)
    ensures g.Proceed? <==> user != None && user.value.role in roles
    ensures user == None ==> g == Deny(Error(NotLoggedInMessage, Some(401)))
    ensures user != None && user.value.role !in roles ==> g == Deny(Error(ForbiddenMessage, Some(403)))
  {
    if user == None then Deny(Error(NotLoggedInMessage, Some(401)))
    else if user.value.role !in roles then Deny(Error(ForbiddenMessage, Some(403)))
    else Proceed
  }
}
