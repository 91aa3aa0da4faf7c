/**
 * The `users` table of the controllers: its rows, the projections the
 * controllers' SELECT and RETURNING lists take of a row, the uniqueness of
 * email and registration number, the COALESCE partial update and the
 * `ORDER BY created_at DESC` listing.
 */
module UserRecords {
  import opened Optional
  import opened Json
  import opened Hashing

  datatype Role = Admin | Student

  datatype Status = Active | Inactive

  /** The text stored in the `role` column. */
  function RoleName(role: Role): string {
    match role
    case Admin => "admin"
    case Student => "student"
  }

  /** The text stored in the `status` column. */
  function StatusName(status: Status): string {
    match status
    case Active => "active"
    case Inactive => "inactive"
  }

  /**
   * `['active', 'inactive'].includes(status)` for a status taken from a
   * request body: the status it names, or None for any other text.
   */
  function ParseStatus(text: string): (r: Option<Status>)
    ensures r != None ==> StatusName(r.value) == text
    ensures (exists status :: StatusName(status) == text) ==> r != None
  {
    if text == "active" then Some(Active)
    else if text == "inactive" then Some(Inactive)
    else None
  }

  /** The status a request body asks for: None when it is missing or not one of the two names. */
  function RequestedStatus(status: Option<string>): (r: Option<Status>)
    ensures r != None ==> status == Some(StatusName(r.value))
    ensures status == Some("active") ==> r == Some(Active)
    ensures status == Some("inactive") ==> r == Some(Inactive)
  {
    if status == None then None else ParseStatus(status.value)
  }

  /**
   * One row. The timestamps are readings of an abstract clock; `bio` and
   * `profile_image_url` are nullable columns no handler writes.
   */
  datatype User = User(
    fullName: string,
    email: string,
    password: Digest,
    collegeUniversity: string,
    course: string,
    batchNo: string,
    regNo: string,
    role: Role,
    bio: Option<string>,
    profileImageUrl: Option<string>,
    status: Status,
    createdAt: int,
    updatedAt: int)

  /** The six user-editable fields of a request body; None is a field the body leaves out. */
  datatype UserFields = UserFields(
    fullName: Option<string>,
    email: Option<string>,
    collegeUniversity: Option<string>,
    course: Option<string>,
    batchNo: Option<string>,
    regNo: Option<string>)

  /** JavaScript truthiness of a body field: present and not the empty string. */
  predicate Given(field: Option<string>) {
    field != None && field.value != ""
  }

  function NullableText(field: Option<string>): Value {
    match field
    case None => Null
    case Some(text) => Str(text)
  }

  /** The value a row shows under a column name; Undefined for a name that is not a column. */
  function Field(id: int, u: User, column: string): Value {
    match column
    case "id" => Num(id)
    case "full_name" => Str(u.fullName)
    case "email" => Str(u.email)
    case "password" => Str(Encoded(u.password))
    case "college_university" => Str(u.collegeUniversity)
    case "course" => Str(u.course)
    case "batch_no" => Str(u.batchNo)
    case "reg_no" => Str(u.regNo)
    case "role" => Str(RoleName(u.role))
    case "bio" => NullableText(u.bio)
    case "profile_image_url" => NullableText(u.profileImageUrl)
    case "status" => Str(StatusName(u.status))
    case "created_at" => Num(u.createdAt)
    case "updated_at" => Num(u.updatedAt)
    case _ => Undefined
  }

  /** The row object a query returns for the listed columns: those keys and no others. */
  function Select(id: int, u: User, columns: set<string>): (row: Value)
    ensures row.Obj? && row.fields.Keys == columns
    ensures "password" !in columns ==> "password" !in row.fields
    ensures "id" in columns ==> row.fields["id"] == Num(id)
    ensures "email" in columns ==> row.fields["email"] == Str(u.email)
  {
    Obj(map column | column in columns :: Field(id, u, column))
  }

  /** The column lists of the controllers' queries. */
  const ListColumns: set<string> := {"id", "full_name", "email", "college_university", "course",
    "batch_no", "reg_no", "profile_image_url", "bio", "status", "created_at", "updated_at", "role"}
  const ProfileColumns: set<string> := {"id", "full_name", "email", "college_university", "course",
    "batch_no", "reg_no", "profile_image_url", "bio", "status", "created_at", "updated_at"}
  const UpdatedColumns: set<string> := {"id", "full_name", "email", "college_university", "course",
    "batch_no", "reg_no", "status", "created_at", "updated_at"}
  const StatusColumns: set<string> := {"id", "full_name", "email", "status"}
  const RegisteredColumns: set<string> := {"id", "full_name", "email", "college_university", "course",
    "batch_no", "reg_no", "role", "status", "created_at"}
  const LoginColumns: set<string> := {"id", "full_name", "email", "password", "college_university",
    "course", "batch_no", "reg_no", "role", "bio", "profile_image_url", "status", "created_at"}
  const CurrentUserColumns: set<string> := {"id", "full_name", "email", "college_university", "course",
    "batch_no", "reg_no", "role", "bio", "profile_image_url", "status", "created_at", "updated_at"}

  /** Only the login query reads the password hash. */
  lemma OnlyLoginReadsHash()
    ensures "password" !in ListColumns && "password" !in ProfileColumns
    ensures "password" !in UpdatedColumns && "password" !in StatusColumns
    ensures "password" !in RegisteredColumns && "password" !in CurrentUserColumns
    ensures "password" in LoginColumns
  {
  }

  /**
   * The uniqueness the handlers' checks maintain: no two rows share an email
   * or a registration number.
   */
  predicate Unique(rows: map<int, User>) {
    forall a, b :: a in rows && b in rows && a != b ==>
      rows[a].email != rows[b].email && rows[a].regNo != rows[b].regNo
  }

  /** Every admin account is active. */
  predicate AdminsActive(rows: map<int, User>) {
    forall id :: id in rows && rows[id].role == Admin ==> rows[id].status == Active
  }

  /** Writing a row that is not an inactive admin keeps every admin active. */
  lemma StoreKeepsAdminsActive(rows: map<int, User>, id: int, u: User)
    requires AdminsActive(rows)
    requires u.role == Admin ==> u.status == Active
    ensures AdminsActive(rows[id := u])
  {
  }

  /** `SELECT id FROM users WHERE email = $1` finds a row. */
  predicate EmailInUse(rows: map<int, User>, email: string) {
    exists id :: id in rows && rows[id].email == email
  }

  /** `SELECT id FROM users WHERE reg_no = $1` finds a row. */
  predicate RegNoInUse(rows: map<int, User>, regNo: string) {
    exists id :: id in rows && rows[id].regNo == regNo
  }

  /** `SELECT id FROM users WHERE email = $1 AND id != $2` finds a row. */
  predicate EmailTakenByOther(rows: map<int, User>, id: int, email: string) {
    exists other :: other in rows && other != id && rows[other].email == email
  }

  /** `SELECT id FROM users WHERE reg_no = $1 AND id != $2` finds a row. */
  predicate RegNoTakenByOther(rows: map<int, User>, id: int, regNo: string) {
    exists other :: other in rows && other != id && rows[other].regNo == regNo
  }

  /** `updateUser`'s email check fires: the body's email is truthy and another row holds it. */
  predicate EmailClash(rows: map<int, User>, id: int, body: UserFields) {
    Given(body.email) && EmailTakenByOther(rows, id, body.email.value)
  }

  /** `updateUser`'s registration-number check fires. */
  predicate RegNoClash(rows: map<int, User>, id: int, body: UserFields) {
    Given(body.regNo) && RegNoTakenByOther(rows, id, body.regNo.value)
  }

  /**
   * The row after `UPDATE users SET full_name = COALESCE($1, full_name), …,
   * updated_at = CURRENT_TIMESTAMP`: a field the body carries (even as the
   * empty string) replaces the stored one, a field it leaves out keeps the
   * stored one, and nothing else but the update time changes.
   */
  function Coalesce(u: User, body: UserFields, now: int): (r: User)
    ensures body.fullName == None ==> r.fullName == u.fullName
    ensures body.fullName != None ==> r.fullName == body.fullName.value
    ensures body.email == None ==> r.email == u.email
    ensures body.email != None ==> r.email == body.email.value
    ensures body.collegeUniversity == None ==> r.collegeUniversity == u.collegeUniversity
    ensures body.collegeUniversity != None ==> r.collegeUniversity == body.collegeUniversity.value
    ensures body.course == None ==> r.course == u.course
    ensures body.course != None ==> r.course == body.course.value
    ensures body.batchNo == None ==> r.batchNo == u.batchNo
    ensures body.batchNo != None ==> r.batchNo == body.batchNo.value
    ensures body.regNo == None ==> r.regNo == u.regNo
    ensures body.regNo != None ==> r.regNo == body.regNo.value
    ensures r.role == u.role && r.status == u.status && r.password == u.password
    ensures r.bio == u.bio && r.profileImageUrl == u.profileImageUrl
    ensures r.createdAt == u.createdAt && r.updatedAt == now
  {
    u.(fullName := body.fullName.GetOr(u.fullName),
       email := body.email.GetOr(u.email),
       collegeUniversity := body.collegeUniversity.GetOr(u.collegeUniversity),
       course := body.course.GetOr(u.course),
       batchNo := body.batchNo.GetOr(u.batchNo),
       regNo := body.regNo.GetOr(u.regNo),
       updatedAt := now)
  }

  /**
   * Repeating an update of a row with the same body at the same time leaves
   * the table as the first update left it.
   */
  lemma CoalesceIdempotent(rows: map<int, User>, id: int, body: UserFields, now: int)
    requires id in rows
    ensures var once := rows[id := Coalesce(rows[id], body, now)];
      once[id := Coalesce(once[id], body, now)] == once
  {
    var once := rows[id := Coalesce(rows[id], body, now)];
    assert Coalesce(once[id], body, now) == once[id];
  }

  /** A body that carries no field only moves the update time. */
  lemma CoalesceEmptyBody(u: User, now: int)
    ensures Coalesce(u, UserFields(None, None, None, None, None, None), now) == u.(updatedAt := now)
  {
  }

  /**
   * Replacing one row keeps the table unique when the new email and
   * registration number are not held by any other row.
   */
  lemma ReplaceKeepsUnique(rows: map<int, User>, id: int, u: User)
    requires Unique(rows) && id in rows
    requires !EmailTakenByOther(rows, id, u.email)
    requires !RegNoTakenByOther(rows, id, u.regNo)
    ensures Unique(rows[id := u])
  {
  }

  /** Rewriting a row without touching its email and registration number keeps the table unique. */
  lemma SameKeysKeepUnique(rows: map<int, User>, id: int, u: User)
    requires Unique(rows) && id in rows
    requires u.email == rows[id].email && u.regNo == rows[id].regNo
    ensures Unique(rows[id := u])
  {
  }

  /**
   * The update `updateUser` performs after its two checks keeps the table
   * unique, provided the body does not carry an empty email or registration
   * number (the checks skip those, but COALESCE still writes them).
   */
  lemma {:induction false} CoalesceKeepsUnique(rows: map<int, User>, id: int, body: UserFields, now: int)
    requires Unique(rows) && id in rows
    requires body.email != Some("") && body.regNo != Some("")
    requires !EmailClash(rows, id, body) && !RegNoClash(rows, id, body)
    ensures Unique(rows[id := Coalesce(rows[id], body, now)])
  {
    var u := Coalesce(rows[id], body, now);
    if body.email == None {
      assert !EmailTakenByOther(rows, id, u.email) by {
        forall other | other in rows && other != id ensures rows[other].email != u.email {
        }
      }
    }
    if body.regNo == None {
      assert !RegNoTakenByOther(rows, id, u.regNo) by {
        forall other | other in rows && other != id ensures rows[other].regNo != u.regNo {
        }
      }
    }
    ReplaceKeepsUnique(rows, id, u);
  }

  /** A new row whose email and registration number are unused keeps the table unique. */
  lemma InsertKeepsUnique(rows: map<int, User>, id: int, u: User)
    requires Unique(rows) && id !in rows
    requires !EmailInUse(rows, u.email) && !RegNoInUse(rows, u.regNo)
    ensures Unique(rows[id := u])
  {
  }

  /** The ids of `rows` from 1 up to below `bound`, ascending. */
  function IdsBelow(rows: map<int, User>, bound: int): (ids: seq<int>)
    decreases bound
    ensures forall id :: id in ids <==> id in rows && 1 <= id < bound
    ensures forall i :: 0 <= i < |ids| ==> ids[i] < bound
    ensures forall i, j :: 0 <= i < j < |ids| ==> ids[i] < ids[j]
  {
    if bound <= 1 then []
    else
      var prev := IdsBelow(rows, bound - 1);
      prev + (if bound - 1 in rows then [bound - 1] else [])
  }

  /** Every id names a row. */
  predicate InRows(rows: map<int, User>, ids: seq<int>) {
    forall i :: 0 <= i < |ids| ==> ids[i] in rows
  }

  /** No id occurs twice. */
  predicate Distinct(ids: seq<int>) {
    forall i, j :: 0 <= i < j < |ids| ==> ids[i] != ids[j]
  }

  /** `ORDER BY created_at DESC`: creation times never increase along `ids`. */
  predicate NewestFirst(rows: map<int, User>, ids: seq<int>)
    requires InRows(rows, ids)
  {
    forall i, j :: 0 <= i < j < |ids| ==> rows[ids[j]].createdAt <= rows[ids[i]].createdAt
  }

  /** Puts `id` into a newest-first list in front of the first row created no later than it. */
  function InsertByAge(rows: map<int, User>, id: int, sorted: seq<int>): (r: seq<int>)
    requires id in rows && InRows(rows, sorted) && NewestFirst(rows, sorted)
    ensures |r| == |sorted| + 1
    ensures forall k :: k in r <==> k == id || k in sorted
    ensures r[0] == id || (sorted != [] && r[0] == sorted[0])
    ensures InRows(rows, r) && NewestFirst(rows, r)
    ensures Distinct(sorted) && id !in sorted ==> Distinct(r)
  {
    if sorted == [] || rows[sorted[0]].createdAt <= rows[id].createdAt then
      ConsNewestFirst(rows, id, sorted);
      ConsDistinct(id, sorted);
      [id] + sorted
    else
      var rest := InsertByAge(rows, id, sorted[1..]);
      assert sorted == [sorted[0]] + sorted[1..];
      assert Distinct(sorted) ==> sorted[0] !in sorted[1..] && Distinct(sorted[1..]);
      ConsNewestFirst(rows, sorted[0], rest);
      ConsDistinct(sorted[0], rest);
      [sorted[0]] + rest
  }

  /** Putting an id that is not in a duplicate-free list in front keeps it duplicate-free. */
  lemma ConsDistinct(x: int, ids: seq<int>)
    ensures Distinct(ids) && x !in ids ==> Distinct([x] + ids)
  {
    if Distinct(ids) && x !in ids {
      var r := [x] + ids;
      forall i, j | 0 <= i < j < |r| ensures r[i] != r[j] {
        if i == 0 {
          assert r[j] == ids[j - 1];
        } else {
          assert r[i] == ids[i - 1] && r[j] == ids[j - 1];
        }
      }
    }
  }

  /** A row no older than the head of a newest-first list can go in front of it. */
  lemma ConsNewestFirst(rows: map<int, User>, x: int, ids: seq<int>)
    requires x in rows && InRows(rows, ids) && NewestFirst(rows, ids)
    requires ids == [] || rows[ids[0]].createdAt <= rows[x].createdAt
    ensures InRows(rows, [x] + ids) && NewestFirst(rows, [x] + ids)
  {
    var r := [x] + ids;
    forall i, j | 0 <= i < j < |r| ensures rows[r[j]].createdAt <= rows[r[i]].createdAt {
      if i == 0 && j > 1 {
        assert rows[ids[j - 1]].createdAt <= rows[ids[0]].createdAt;
      }
    }
  }

  /** The ids rearranged newest first. */
  function SortByAge(rows: map<int, User>, ids: seq<int>): (r: seq<int>)
    requires InRows(rows, ids)
    ensures |r| == |ids|
    ensures forall k :: k in r <==> k in ids
    ensures InRows(rows, r) && NewestFirst(rows, r)
    ensures Distinct(ids) ==> Distinct(r)
  {
    if ids == [] then []
    else
      assert ids == [ids[0]] + ids[1..];
      InsertByAge(rows, ids[0], SortByAge(rows, ids[1..]))
  }

  /**
   * The order `SELECT … FROM users ORDER BY created_at DESC` returns the
   * rows in: each row exactly once, newest first. Rows created at the same
   * time come in ascending id order; the database leaves that order open.
   */
  function Listing(rows: map<int, User>, bound: int): (order: seq<int>)
    ensures forall id :: id in order <==> id in rows && 1 <= id < bound
    ensures Distinct(order)
    ensures InRows(rows, order) && NewestFirst(rows, order)
  {
    SortByAge(rows, IdsBelow(rows, bound))
  }
}
