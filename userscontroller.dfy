/**
 * The user-management handlers (controllers/users.controller.js) as methods
 * of the `users` table. Each handler runs its checks in the source's order,
 * answers with the first one that fails, and only then writes the table.
 */
module UsersController {
  import opened Optional
  import opened Json
  import opened Hashing
  import opened Response
  import opened PasswordGenerator
  import opened UserRecords
  import opened Mail

  const NotFoundMessage := "User not found"
  const RetrievedMessage := "User retrieved successfully"

  /** The `users` table: its rows by id, and the next value of the id sequence. */
  class UserTable {
    var rows: map<int, User>
    var nextId: int

    /** Every id was handed out by the sequence, which starts at 1. */
    ghost predicate Valid()
      reads this
    {
      1 <= nextId && forall id :: id in rows ==> 1 <= id < nextId
    }

    /** An empty table whose sequence starts at 1. */
    constructor()
      ensures Valid() && rows == map[] && nextId == 1
    {
      rows := map[];
      nextId := 1;
    }

    /**
     * `getAllUsers`: every row, newest first, each projected on the listed
     * columns, which leave out the password hash.
     */
    function GetAllUsers(): (r: Envelope)
      reads this
      requires Valid()
      ensures r == Success("Users retrieved successfully", Arr(Projected(rows, Listing(rows, nextId), ListColumns)), None)
      ensures forall id :: id in Listing(rows, nextId) <==> id in rows
    {
      var order := Listing(rows, nextId);
      Success("Users retrieved successfully", Arr(Projected(rows, order, ListColumns)), None)
    }

    /**
     * `getUserById`: 404 exactly when no row has the id; otherwise that row
     * on the profile columns, which leave out the password hash.
     */
    function GetUserById(id: int): (r: Envelope)
      reads this
      ensures id !in rows <==> r == Error(NotFoundMessage, Some(404))
      ensures id in rows ==> r == Success(RetrievedMessage, Select(id, rows[id], ProfileColumns), None)
      ensures r.success ==> r.data.Some? && r.data.value.Obj? && "password" !in r.data.value.fields
    {
      if id !in rows then Error(NotFoundMessage, Some(404))
      else Success(RetrievedMessage, Select(id, rows[id], ProfileColumns), None)
    }

    /**
     * `updateUser`: 404 for an unknown id; then 400 when a truthy email is
     * held by another row; then 400 when a truthy registration number is;
     * otherwise the COALESCE update of that one row. A rejected update
     * leaves the table as it was.
     */
    method UpdateUser(id: int, body: UserFields, now: int) returns (resp: Envelope)
      requires Valid()
      modifies this
      ensures Valid() && nextId == old(nextId)
      ensures id !in old(rows) ==>
        resp == Error(NotFoundMessage, Some(404)) && rows == old(rows)
      ensures id in old(rows) && EmailClash(old(rows), id, body) ==>
        resp == Error("Email already taken by another user", Some(400)) && rows == old(rows)
      ensures id in old(rows) && !EmailClash(old(rows), id, body) && RegNoClash(old(rows), id, body) ==>
        resp == Error("Registration number already taken by another user", Some(400)) && rows == old(rows)
      ensures id in old(rows) && !EmailClash(old(rows), id, body) && !RegNoClash(old(rows), id, body) ==>
        && rows == old(rows)[id := Coalesce(old(rows)[id], body, now)]
        && resp == Success("User updated successfully", Select(id, rows[id], UpdatedColumns), None)
      ensures Unique(old(rows)) && body.email != Some("") && body.regNo != Some("") ==> Unique(rows)
      ensures AdminsActive(old(rows)) ==> AdminsActive(rows)
    {
      if id !in rows {
        return Error(NotFoundMessage, Some(404));
      }
      if EmailClash(rows, id, body) {
        return Error("Email already taken by another user", Some(400));
      }
      if RegNoClash(rows, id, body) {
        return Error("Registration number already taken by another user", Some(400));
      }
      if Unique(rows) && body.email != Some("") && body.regNo != Some("") {
        CoalesceKeepsUnique(rows, id, body, now);
      }
      rows := rows[id := Coalesce(rows[id], body, now)];
      resp := Success("User updated successfully", Select(id, rows[id], UpdatedColumns), None);
    }

    /**
     * `deleteUser`: 404 for an unknown id, 403 for an admin, otherwise that
     * row and no other is removed.
     */
    method DeleteUser(id: int) returns (resp: Envelope)
      requires Valid()
      modifies this
      ensures Valid() && nextId == old(nextId)
      ensures id !in old(rows) ==> resp == Error(NotFoundMessage, Some(404)) && rows == old(rows)
      ensures id in old(rows) && old(rows)[id].role == Admin ==>
        resp == Error("Cannot delete admin user", Some(403)) && rows == old(rows)
      ensures id in old(rows) && old(rows)[id].role != Admin ==>
        resp == Success("User deleted successfully", Undefined, None) && rows == old(rows) - {id}
      ensures forall k :: k in old(rows) && old(rows)[k].role == Admin ==> k in rows
      ensures Unique(old(rows)) ==> Unique(rows)
      ensures AdminsActive(old(rows)) ==> AdminsActive(rows)
    {
      if id !in rows {
        return Error(NotFoundMessage, Some(404));
      }
      if rows[id].role == Admin {
        return Error("Cannot delete admin user", Some(403));
      }
      rows := rows - {id};
      resp := Success("User deleted successfully", Undefined, None);
    }

    /**
     * `toggleUserStatus`: 400 for a missing status or one other than
     * "active" and "inactive", before the id is looked up; then 404; then
     * 403 when an admin would be deactivated; otherwise that row takes the
     * status and nothing else of the table changes.
     */
    method ToggleUserStatus(id: int, status: Option<string>, now: int) returns (resp: Envelope)
      requires Valid()
      modifies this
      ensures Valid() && nextId == old(nextId)
      ensures RequestedStatus(status) == None ==>
        resp == Error("Status must be either \"active\" or \"inactive\"", Some(400)) && rows == old(rows)
      ensures RequestedStatus(status) != None && id !in old(rows) ==>
        resp == Error(NotFoundMessage, Some(404)) && rows == old(rows)
      ensures RequestedStatus(status) == Some(Inactive) && id in old(rows) && old(rows)[id].role == Admin ==>
        resp == Error("Cannot deactivate admin user", Some(403)) && rows == old(rows)
      ensures (RequestedStatus(status) != None && id in old(rows)
        && !(RequestedStatus(status) == Some(Inactive) && old(rows)[id].role == Admin)) ==>
        var target := RequestedStatus(status).value;
        && rows == old(rows)[id := old(rows)[id].(status := target, updatedAt := now)]
        && resp == Success("User " + (if target == Active then "activated" else "deactivated") + " successfully",
             Select(id, rows[id], StatusColumns), None)
      ensures Unique(old(rows)) ==> Unique(rows)
      ensures AdminsActive(old(rows)) ==> AdminsActive(rows)
    {
      if RequestedStatus(status) == None {
        return Error("Status must be either \"active\" or \"inactive\"", Some(400));
      }
      var target := RequestedStatus(status).value;
      if id !in rows {
        return Error(NotFoundMessage, Some(404));
      }
      if rows[id].role == Admin && target == Inactive {
        return Error("Cannot deactivate admin user", Some(403));
      }
      if Unique(rows) {
        SameKeysKeepUnique(rows, id, rows[id].(status := target, updatedAt := now));
      }
      rows := rows[id := rows[id].(status := target, updatedAt := now)];
      var verb := if target == Active then "activated" else "deactivated";
      resp := Success("User " + verb + " successfully", Select(id, rows[id], StatusColumns), None);
    }

    /**
     * `resetUserPassword`: 404 for an unknown id; otherwise a fresh
     * 12-character password is generated, only that row's hash (and update
     * time) changes, the password is mailed to the row's address, and the
     * answer is the same whether or not the mail went out.
     */
    method ResetUserPassword(id: int, draw: Draw, salt: string, now: int, emailSent: bool)
      returns (resp: Envelope, mail: Option<Message>)
      requires Valid()
      requires DrawFits(draw, PasswordLength(Some(12)))
      modifies this
      ensures Valid() && nextId == old(nextId)
      ensures id !in old(rows) ==>
        resp == Error(NotFoundMessage, Some(404)) && rows == old(rows) && mail == None
      ensures id in old(rows) ==>
        && mail.Some? && mail.value.PasswordReset?
        && mail.value.to == old(rows)[id].email && mail.value.fullName == old(rows)[id].fullName
        && |mail.value.password| == 12 && mail.value.password == Permute(Unshuffled(draw), draw.order)
        && rows == old(rows)[id := old(rows)[id].(password := Hash(mail.value.password, salt), updatedAt := now)]
        && resp == Success("Password reset successfully. New password sent to email.", Undefined, None)
      ensures mail.Some? ==> id in rows && Compare(mail.value.password, rows[id].password)
      ensures Unique(old(rows)) ==> Unique(rows)
      ensures AdminsActive(old(rows)) ==> AdminsActive(rows)
    {
      if id !in rows {
        return Error(NotFoundMessage, Some(404)), None;
      }
      var user := rows[id];
      var newPassword := GenerateRandomPassword(Some(12), draw);
      var hashed := Hash(newPassword, salt);
      if Unique(rows) {
        SameKeysKeepUnique(rows, id, user.(password := hashed, updatedAt := now));
      }
      rows := rows[id := user.(password := hashed, updatedAt := now)];
      mail := Some(PasswordReset(user.email, user.fullName, newPassword));
      // A failed send is only logged: `emailSent` does not reach the answer.
      resp := Success("Password reset successfully. New password sent to email.", Undefined, None);
    }
  }

  /** The row objects a query returns, in the given order, on the given columns. */
  function Projected(rows: map<int, User>, order: seq<int>, columns: set<string>): (items: seq<Value>)
    requires InRows(rows, order)
    ensures |items| == |order|
    ensures forall i :: 0 <= i < |order| ==> items[i] == Select(order[i], rows[order[i]], columns)
    ensures "password" !in columns ==> forall i :: 0 <= i < |items| ==> items[i].Obj? && "password" !in items[i].fields
  {
    seq(|order|, i requires 0 <= i < |order| => Select(order[i], rows[order[i]], columns))
  }

  /**
   * Applying the status update of `toggleUserStatus` a second time, with the
   * same status at the same time, leaves the table as the first one left it.
   */
  lemma StatusUpdateIdempotent(rows: map<int, User>, id: int, target: Status, now: int)
    requires id in rows
    ensures var once := rows[id := rows[id].(status := target, updatedAt := now)];
      once[id := once[id].(status := target, updatedAt := now)] == once
  {
    var once := rows[id := rows[id].(status := target, updatedAt := now)];
    assert once[id].(status := target, updatedAt := now) == once[id];
  }
}
