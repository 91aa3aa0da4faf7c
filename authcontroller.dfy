/**
 * The account handlers of controllers/auth.controller.js: registration by an
 * admin, login, and the profile of the logged-in user. Signing a token is a
 * parameter; what is signed is modelled.
 */
module AuthController {
  import opened Optional
  import opened Json
  import opened Hashing
  import opened Response
  import opened PasswordGenerator
  import opened UserRecords
  import opened Mail
  import opened EmailFormat
  import opened UsersController
  import AuthMiddleware

  const MissingFieldsMessage := "Please provide all required fields"
  const InvalidEmailMessage := "Please provide a valid email address"
  const EmailExistsMessage := "User with this email already exists"
  const RegNoExistsMessage := "User with this registration number already exists"
  const RegisteredMessage := "User registered successfully. Password sent to email."
  const MissingCredentialsMessage := "Please provide email and password"
  const InvalidCredentialsMessage := "Invalid email or password"
  const DeactivatedMessage := "Account is deactivated. Please contact administrator."

  /** All six fields `register` requires are truthy. */
  predicate AllGiven(body: UserFields) {
    && Given(body.fullName) && Given(body.email) && Given(body.collegeUniversity)
    && Given(body.course) && Given(body.batchNo) && Given(body.regNo)
  }

  /** `register` gets past its four checks. */
  predicate Admissible(rows: map<int, User>, body: UserFields) {
    && AllGiven(body)
    && EmailPattern(body.email.value)
    && !EmailInUse(rows, body.email.value)
    && !RegNoInUse(rows, body.regNo.value)
  }

  /**
   * The row `register` inserts: the body's fields, the hash of the
   * generated password, role forced to student and status to active, and
   * both timestamps at the insertion time.
   */
  function NewStudent(body: UserFields, password: Digest, now: int): (u: User)
    requires AllGiven(body)
    ensures u.role == Student && u.status == Active
    ensures u.email == body.email.value && u.regNo == body.regNo.value
    ensures u.password == password
  {
    User(body.fullName.value, body.email.value, password, body.collegeUniversity.value,
      body.course.value, body.batchNo.value, body.regNo.value, Student, None, None, Active, now, now)
  }

  /**
   * `register`: 400 unless all six fields are truthy, 400 unless the email
   * matches the pattern, 409 when the email is in use, then 409 when the
   * registration number is; a rejected request leaves the table as it was.
   * Otherwise one row is added under the next id, a student account that is
   * active, whose hash verifies against the mailed 12-character password;
   * the answer is 201 with the returned columns, which leave out the hash,
   * whether or not the mail went out.
   */
  method Register(table: UserTable, body: UserFields, draw: Draw, salt: string, now: int, emailSent: bool)
    returns (resp: Envelope, mail: Option<Message>)
    requires table.Valid()
    requires DrawFits(draw, PasswordLength(Some(12)))
    modifies table
    ensures table.Valid()
    ensures !AllGiven(body) ==>
      resp == Error(MissingFieldsMessage, Some(400)) && mail == None && unchanged(table)
    ensures AllGiven(body) && !EmailPattern(body.email.value) ==>
      resp == Error(InvalidEmailMessage, Some(400)) && mail == None && unchanged(table)
    ensures AllGiven(body) && EmailPattern(body.email.value) && EmailInUse(old(table.rows), body.email.value) ==>
      resp == Error(EmailExistsMessage, Some(409)) && mail == None && unchanged(table)
    ensures (AllGiven(body) && EmailPattern(body.email.value) && !EmailInUse(old(table.rows), body.email.value)
      && RegNoInUse(old(table.rows), body.regNo.value)) ==>
      resp == Error(RegNoExistsMessage, Some(409)) && mail == None && unchanged(table)
    ensures Admissible(old(table.rows), body) ==>
      var id := old(table.nextId);
      && id !in old(table.rows)
      && table.nextId == id + 1
      && mail.Some? && mail.value == Registration(body.email.value, body.fullName.value,
           mail.value.password, body.regNo.value)
      && mail.value.password == Permute(Unshuffled(draw), draw.order) && |mail.value.password| == 12
      && table.rows == old(table.rows)[id := NewStudent(body, Hash(mail.value.password, salt), now)]
      && resp == Success(RegisteredMessage, Select(id, table.rows[id], RegisteredColumns), Some(201))
      && Compare(mail.value.password, table.rows[id].password)
    ensures resp.data.Some? ==> resp.data.value.Obj? && "password" !in resp.data.value.fields
    ensures Unique(old(table.rows)) ==> Unique(table.rows)
    ensures AdminsActive(old(table.rows)) ==> AdminsActive(table.rows)
  {
    if !AllGiven(body) {
      return Error(MissingFieldsMessage, Some(400)), None;
    }
    var email := body.email.value;
    CheckEmailMatchesPattern(email);
    if !CheckEmail(email) {
      return Error(InvalidEmailMessage, Some(400)), None;
    }
    if EmailInUse(table.rows, email) {
      return Error(EmailExistsMessage, Some(409)), None;
    }
    if RegNoInUse(table.rows, body.regNo.value) {
      return Error(RegNoExistsMessage, Some(409)), None;
    }
    var id := table.nextId;
    var randomPassword := GenerateRandomPassword(Some(12), draw);
    var hashed := Hash(randomPassword, salt);
    var user := NewStudent(body, hashed, now);
    if Unique(table.rows) {
      InsertKeepsUnique(table.rows, id, user);
    }
    if AdminsActive(table.rows) {
      StoreKeepsAdminsActive(table.rows, id, user);
    }
    table.rows := table.rows[id := user];
    table.nextId := id + 1;
    OnlyLoginReadsHash();
    mail := Some(Registration(email, body.fullName.value, randomPassword, body.regNo.value));
    // A failed send is only logged: `emailSent` does not reach the answer.
    resp := Success(RegisteredMessage, Select(id, user, RegisteredColumns), Some(201));
  }

  /** The position of the first id in `ids` whose account has the email `email`, or `|ids|`. */
  function FirstWithEmail(rows: map<int, User>, ids: seq<int>, email: string): (i: nat)
    requires InRows(rows, ids)
    ensures i <= |ids|
    ensures i < |ids| ==> rows[ids[i]].email == email
    ensures forall k :: 0 <= k < i ==> rows[ids[k]].email != email
  {
    if ids == [] then 0
    else if rows[ids[0]].email == email then 0
    else 1 + FirstWithEmail(rows, ids[1..], email)
  }

  /**
   * `SELECT … FROM users WHERE email = $1` and `result.rows[0]`: the
   * account with that email; when several rows share it, the one with the
   * smallest id.
   */
  function FindByEmail(rows: map<int, User>, bound: int, email: string): (r: Option<int>)
    ensures r == None <==> forall id :: id in rows && 1 <= id < bound ==> rows[id].email != email
    ensures r != None ==> r.value in rows && 1 <= r.value < bound && rows[r.value].email == email
    ensures r != None ==> forall id :: id in rows && 1 <= id < r.value ==> rows[id].email != email
  {
    var ids := IdsBelow(rows, bound);
    var i := FirstWithEmail(rows, ids, email);
    EarlierIdsMiss(rows, bound, email, i);
    if i == |ids| then None else Some(ids[i])
  }

  /**
   * Every row whose id comes before position `i` of the ascending id list
   * has another email: below the `i`-th id, or below `bound` when `i` is
   * past the end.
   */
  lemma EarlierIdsMiss(rows: map<int, User>, bound: int, email: string, i: nat)
    requires i <= |IdsBelow(rows, bound)|
    requires forall k :: 0 <= k < i ==> rows[IdsBelow(rows, bound)[k]].email != email
    ensures var ids := IdsBelow(rows, bound);
      var limit := if i == |ids| then bound else ids[i];
      forall id :: id in rows && 1 <= id < limit ==> rows[id].email != email
  {
    var ids := IdsBelow(rows, bound);
    var limit := if i == |ids| then bound else ids[i];
    forall id | id in rows && 1 <= id < limit ensures rows[id].email != email {
      if i < |ids| {
        assert ids[i] in ids;
      }
      assert id in ids;
      var k :| 0 <= k < |ids| && ids[k] == id;
      assert k < i;
    }
  }

  /** `generateToken(user)`: the claims signed into the token; `username` is never selected, so it is absent. */
  function GenerateToken(id: int, u: User): (claims: AuthMiddleware.Claims)
    ensures claims.id == id && claims.email == u.email && claims.username == None
    ensures claims.role == RoleName(u.role)
  {
    AuthMiddleware.Claims(id, None, u.email, RoleName(u.role))
  }

  /** The body of a successful login: the signed token and the row without its password hash. */
  function LoginData(id: int, u: User, sign: AuthMiddleware.Claims -> string): (data: Value)
    ensures data.Obj? && data.fields.Keys == {"token", "user"}
    ensures data.fields["token"] == Str(sign(GenerateToken(id, u)))
    ensures var user := data.fields["user"];
      user.Obj? && "password" !in user.fields && user.fields.Keys == LoginColumns - {"password"}
  {
    Obj(map["token" := Str(sign(GenerateToken(id, u))),
            "user" := Obj(Select(id, u, LoginColumns).fields - {"password"})])
  }

  /**
   * `login`: 400 unless both email and password are truthy; 401 "Invalid
   * email or password" when no account has the email; 401 "deactivated"
   * for an inactive account, before the password is looked at; 401 "Invalid
   * email or password" again for a wrong password; otherwise the token and
   * the account without its hash.
   */
  function Login(table: UserTable, email: Option<string>, password: Option<string>,
                 sign: AuthMiddleware.Claims -> string): (r: Envelope)
    reads table
    requires table.Valid()
    ensures !Given(email) || !Given(password) ==> r == Error(MissingCredentialsMessage, Some(400))
    ensures Given(email) && Given(password) && !EmailInUse(table.rows, email.value) ==>
      r == Error(InvalidCredentialsMessage, Some(401))
    ensures Given(email) && Given(password) && EmailInUse(table.rows, email.value) ==>
      var found := FindByEmail(table.rows, table.nextId, email.value);
      && found != None
      && var u := table.rows[found.value];
      && (u.status == Inactive ==> r == Error(DeactivatedMessage, Some(401)))
      && (u.status == Active && !Compare(password.value, u.password) ==>
            r == Error(InvalidCredentialsMessage, Some(401)))
      && (u.status == Active && Compare(password.value, u.password) ==>
            r == Success("Login successful", LoginData(found.value, u, sign), None))
    ensures r.success ==> exists id :: (id in table.rows && table.rows[id].email == email.value
      && table.rows[id].status == Active && Compare(password.value, table.rows[id].password))
  {
    if !Given(email) || !Given(password) then Error(MissingCredentialsMessage, Some(400))
    else
      match FindByEmail(table.rows, table.nextId, email.value)
      case None => Error(InvalidCredentialsMessage, Some(401))
      case Some(id) =>
        var u := table.rows[id];
        if u.status != Active then Error(DeactivatedMessage, Some(401))
        else if !Compare(password.value, u.password) then Error(InvalidCredentialsMessage, Some(401))
        else Success("Login successful", LoginData(id, u, sign), None)
  }

  /** An unknown email and a wrong password get the very same answer. */
  lemma UnknownEmailLooksLikeWrongPassword(table: UserTable, id: int, unknown: string,
                                           wrong: string, sign: AuthMiddleware.Claims -> string)
    requires table.Valid() && id in table.rows
    requires table.rows[id].email != "" && unknown != "" && wrong != ""
    requires forall other :: other in table.rows && table.rows[other].email == table.rows[id].email ==> other == id
    requires !EmailInUse(table.rows, unknown)
    requires table.rows[id].status == Active && !Compare(wrong, table.rows[id].password)
    ensures var known := table.rows[id].email;
      Login(table, Some(unknown), Some(wrong), sign) == Login(table, Some(known), Some(wrong), sign)
    ensures Login(table, Some(unknown), Some(wrong), sign) == Error(InvalidCredentialsMessage, Some(401))
  {
    var known := table.rows[id].email;
    var found := FindByEmail(table.rows, table.nextId, known);
    assert found != None;
    assert found.value == id;
  }

  /** On an inactive account every password, right or wrong, gets the same "deactivated" answer. */
  lemma InactiveAccountIgnoresPassword(table: UserTable, id: int, p1: string, p2: string,
                                       sign: AuthMiddleware.Claims -> string)
    requires table.Valid() && id in table.rows && table.rows[id].status == Inactive
    requires table.rows[id].email != "" && p1 != "" && p2 != ""
    requires forall other :: other in table.rows && table.rows[other].email == table.rows[id].email ==> other == id
    ensures var email := table.rows[id].email;
      Login(table, Some(email), Some(p1), sign) == Login(table, Some(email), Some(p2), sign)
    ensures Login(table, Some(table.rows[id].email), Some(p1), sign) == Error(DeactivatedMessage, Some(401))
  {
    var email := table.rows[id].email;
    var found := FindByEmail(table.rows, table.nextId, email);
    assert found != None && found.value == id;
  }

  /** A token signed at login passes `authorize('admin')` exactly for an admin account. */
  lemma TokenRoleGatesAdmin(id: int, u: User)
    ensures AuthMiddleware.Authorize(["admin"], Some(GenerateToken(id, u))).Proceed? <==> u.role == Admin
  {
    assert RoleName(Student) != "admin";
  }

  /**
   * `getCurrentUser`: 404 when the id the token carries names no row any
   * more; otherwise that row on its columns, which leave out the hash.
   */
  function GetCurrentUser(table: UserTable, claims: AuthMiddleware.Claims): (r: Envelope)
    reads table
    ensures claims.id !in table.rows <==> r == Error(NotFoundMessage, Some(404))
    ensures claims.id in table.rows ==>
      r == Success(RetrievedMessage, Select(claims.id, table.rows[claims.id], CurrentUserColumns), None)
    ensures r.success ==> r.data.Some? && r.data.value.Obj? && "password" !in r.data.value.fields
  {
    if claims.id !in table.rows then Error(NotFoundMessage, Some(404))
    else Success(RetrievedMessage, Select(claims.id, table.rows[claims.id], CurrentUserColumns), None)
  }
}
