/** Account administration of the legacy front end, on the browser-storage
    path: registration requests approved or rejected, approved users
    removed, restored or purged, and profile and password edits. The three
    lists live in `AppState`; a user record is a value, so editing a user in
    place is replacing it at its index. */
module Users {
  import opened Common
  import opened Text
  import opened Domain
  import opened Roles

  /** Index of the first approved user with `username`. */
  function UserIndex(users: seq<User>, username: string): (r: Option<nat>)
    ensures r.Some? ==> r.value < |users| && users[r.value].username == username
    ensures r.Some? ==> forall j :: 0 <= j < r.value ==> users[j].username != username
    ensures r.None? <==> forall j :: 0 <= j < |users| ==> users[j].username != username
  {
    FindIndex(users, (u: User) => u.username == username)
  }

  function RequestIndex(requests: seq<UserRequest>, id: int): (r: Option<nat>)
    ensures r.Some? ==> r.value < |requests| && requests[r.value].id == id
    ensures r.Some? ==> forall j :: 0 <= j < r.value ==> requests[j].id != id
    ensures r.None? <==> forall j :: 0 <= j < |requests| ==> requests[j].id != id
  {
    FindIndex(requests, (q: UserRequest) => q.id == id)
  }

  function DeletedIndex(deleted: seq<DeletedUser>, username: string): (r: Option<nat>)
    ensures r.Some? ==> r.value < |deleted| && deleted[r.value].user.username == username
    ensures r.Some? ==> forall j :: 0 <= j < r.value ==> deleted[j].user.username != username
    ensures r.None? <==> forall j :: 0 <= j < |deleted| ==> deleted[j].user.username != username
  {
    FindIndex(deleted, (d: DeletedUser) => d.user.username == username)
  }

  /** `approvedUsers.filter(u => u.username !== username)`. */
  function WithoutUser(users: seq<User>, username: string): (r: seq<User>)
    ensures forall u :: u in r <==> u in users && u.username != username
    ensures forall u :: multiset(r)[u] == if u.username != username then multiset(users)[u] else 0
    ensures IsSubsequence(r, users)
  {
    var p := (u: User) => u.username != username;
    FilterMultisetAll(users, p);
    Filter(users, p)
  }

  /** `deletedUsers.filter(u => u.username !== username)`. */
  function WithoutDeleted(deleted: seq<DeletedUser>, username: string): (r: seq<DeletedUser>)
    ensures forall d :: d in r <==> d in deleted && d.user.username != username
    ensures IsSubsequence(r, deleted)
  {
    Filter(deleted, (d: DeletedUser) => d.user.username != username)
  }

  /** Usernames are unique in the list. */
  predicate UniqueUsernames(users: seq<User>)
  {
    forall i, j :: 0 <= i < j < |users| ==> users[i].username != users[j].username
  }

  // ---- Registration requests ----

  /** `approveUserRequest(requestId)`; `confirmed` is the answer to its `confirm`.
      The request is approved whatever its status, and its username is not
      checked against the approved list. */
  method ApproveUserRequest(st: AppState, requestId: int, confirmed: bool, now: string) returns (outcome: Outcome)
    modifies st`approvedUsers, st`userRequests
    ensures RequestIndex(old(st.userRequests), requestId).None? ==>
              outcome == NotFound && st.approvedUsers == old(st.approvedUsers) && st.userRequests == old(st.userRequests)
    ensures RequestIndex(old(st.userRequests), requestId).Some? && !confirmed ==>
              outcome == Dismissed && st.approvedUsers == old(st.approvedUsers) && st.userRequests == old(st.userRequests)
    ensures RequestIndex(old(st.userRequests), requestId).Some? && confirmed && st.currentUser.None? ==>
              outcome == Threw && st.approvedUsers == old(st.approvedUsers) && st.userRequests == old(st.userRequests)
    ensures RequestIndex(old(st.userRequests), requestId).Some? && confirmed && st.currentUser.Some? ==>
              var i := RequestIndex(old(st.userRequests), requestId).value;
              var q := old(st.userRequests)[i];
              var signer := st.currentUser.value.username;
              && outcome == Done
              && st.approvedUsers == old(st.approvedUsers) +
                   [User(q.username, q.password, q.role, q.name, q.phone, q.email, now, signer)]
              && st.userRequests == old(st.userRequests)[i := q.(status := RequestApproved,
                                                                 approvedAt := Some(now), approvedBy := Some(signer))]
  {
    var found := RequestIndex(st.userRequests, requestId);
    if found.None? {
      return NotFound;
    }
    if !confirmed {
      return Dismissed;
    }
    if st.currentUser.None? {
      return Threw;
    }
    var i := found.value;
    var q := st.userRequests[i];
    var signer := st.currentUser.value.username;
    st.approvedUsers := st.approvedUsers + [User(q.username, q.password, q.role, q.name, q.phone, q.email, now, signer)];
    st.userRequests := st.userRequests[i := q.(status := RequestApproved, approvedAt := Some(now), approvedBy := Some(signer))];
    return Done;
  }

  /** `rejectUserRequest(requestId)`; `reason` is the answer to its optional
      `prompt`, and dismissing the prompt still rejects. */
  method RejectUserRequest(st: AppState, requestId: int, reason: Option<string>, now: string) returns (outcome: Outcome)
    modifies st`userRequests
    ensures RequestIndex(old(st.userRequests), requestId).None? ==>
              outcome == NotFound && st.userRequests == old(st.userRequests)
    ensures RequestIndex(old(st.userRequests), requestId).Some? && st.currentUser.None? ==>
              outcome == Threw && st.userRequests == old(st.userRequests)
    ensures RequestIndex(old(st.userRequests), requestId).Some? && st.currentUser.Some? ==>
              var i := RequestIndex(old(st.userRequests), requestId).value;
              var q := old(st.userRequests)[i];
              && outcome == Done
              && st.userRequests == old(st.userRequests)[i := RejectedRequest(q, st.currentUser.value.username, reason, now)]
  {
    var found := RequestIndex(st.userRequests, requestId);
    if found.None? {
      return NotFound;
    }
    if st.currentUser.None? {
      return Threw;
    }
    var i := found.value;
    st.userRequests := st.userRequests[i := RejectedRequest(st.userRequests[i], st.currentUser.value.username, reason, now)];
    return Done;
  }

  /** The request as `rejectUserRequest` leaves it. */
  function RejectedRequest(q: UserRequest, signer: string, reason: Option<string>, now: string): (r: UserRequest)
    ensures r.status == RequestRejected && r.rejectedAt == Some(now) && r.rejectedBy == Some(signer)
    ensures r.rejectionReason == if TruthyOpt(reason) then reason else q.rejectionReason
    ensures r.(status := q.status, rejectedAt := q.rejectedAt, rejectedBy := q.rejectedBy,
               rejectionReason := q.rejectionReason) == q
  {
    var r := q.(status := RequestRejected, rejectedAt := Some(now), rejectedBy := Some(signer));
    if TruthyOpt(reason) then r.(rejectionReason := reason) else r
  }

  // ---- Approved and deleted users ----

  /** The record `removeApprovedUser` keeps in the deleted list. */
  function DeletionRecord(u: User, user: Option<Session>, now: string): DeletedUser
  {
    DeletedUser(u, now, if user.Some? then user.value.username else "system")
  }

  /** `removeApprovedUser(username)`; `confirmed` is the answer to its `confirm`. */
  method RemoveApprovedUser(st: AppState, username: string, confirmed: bool, now: string) returns (outcome: Outcome)
    modifies st`approvedUsers, st`deletedUsers
    ensures username == "admin" ==> outcome == Refused
    ensures username == "admin" || !confirmed || UserIndex(old(st.approvedUsers), username).None? ==>
              st.approvedUsers == old(st.approvedUsers) && st.deletedUsers == old(st.deletedUsers)
    ensures username != "admin" && !confirmed ==> outcome == Dismissed
    ensures username != "admin" && confirmed && UserIndex(old(st.approvedUsers), username).None? ==> outcome == NotFound
    ensures username != "admin" && confirmed && UserIndex(old(st.approvedUsers), username).Some? ==>
              var u := old(st.approvedUsers)[UserIndex(old(st.approvedUsers), username).value];
              && outcome == Done
              && st.deletedUsers == old(st.deletedUsers) + [DeletionRecord(u, st.currentUser, now)]
              && st.approvedUsers == WithoutUser(old(st.approvedUsers), username)
  {
    if username == "admin" {
      return Refused;
    }
    if !confirmed {
      return Dismissed;
    }
    var found := UserIndex(st.approvedUsers, username);
    if found.None? {
      return NotFound;
    }
    var u := st.approvedUsers[found.value];
    st.deletedUsers := st.deletedUsers + [DeletionRecord(u, st.currentUser, now)];
    st.approvedUsers := WithoutUser(st.approvedUsers, username);
    return Done;
  }

  /** The user `restoreDeletedUser` puts back: the deletion stamp dropped and
      an empty `approvedBy` replaced by `system`. */
  function Restored(d: DeletedUser): (u: User)
    ensures u.username == d.user.username && u.password == d.user.password && u.role == d.user.role
    ensures u.name == d.user.name && u.phone == d.user.phone && u.email == d.user.email
    ensures u.approvedAt == d.user.approvedAt
    ensures u.approvedBy == if Truthy(d.user.approvedBy) then d.user.approvedBy else "system"
  {
    var v := d.user;
    User(v.username, v.password, v.role, v.name, v.phone, v.email, v.approvedAt,
         if Truthy(v.approvedBy) then v.approvedBy else "system")
  }

  /** `restoreDeletedUser(username)`; `confirmed` is the answer to its `confirm`. */
  method RestoreDeletedUser(st: AppState, username: string, confirmed: bool) returns (outcome: Outcome)
    modifies st`approvedUsers, st`deletedUsers
    ensures DeletedIndex(old(st.deletedUsers), username).None? ==> outcome == NotFound
    ensures DeletedIndex(old(st.deletedUsers), username).Some? && UserIndex(old(st.approvedUsers), username).Some? ==>
              outcome == Refused
    ensures DeletedIndex(old(st.deletedUsers), username).Some? && UserIndex(old(st.approvedUsers), username).None? && !confirmed ==>
              outcome == Dismissed
    ensures outcome != Done ==> st.approvedUsers == old(st.approvedUsers) && st.deletedUsers == old(st.deletedUsers)
    ensures outcome == Done <==>
              DeletedIndex(old(st.deletedUsers), username).Some? && UserIndex(old(st.approvedUsers), username).None? && confirmed
    ensures outcome == Done ==>
              && st.approvedUsers == old(st.approvedUsers) +
                   [Restored(old(st.deletedUsers)[DeletedIndex(old(st.deletedUsers), username).value])]
              && st.deletedUsers == WithoutDeleted(old(st.deletedUsers), username)
  {
    var found := DeletedIndex(st.deletedUsers, username);
    if found.None? {
      return NotFound;
    }
    if UserIndex(st.approvedUsers, username).Some? {
      return Refused;
    }
    if !confirmed {
      return Dismissed;
    }
    st.approvedUsers := st.approvedUsers + [Restored(st.deletedUsers[found.value])];
    st.deletedUsers := WithoutDeleted(st.deletedUsers, username);
    return Done;
  }

  /** `permanentlyDeleteUser(username)`: every deleted record with that username goes. */
  method PermanentlyDeleteUser(st: AppState, username: string, confirmed: bool) returns (outcome: Outcome)
    modifies st`deletedUsers
    ensures !confirmed ==> outcome == Dismissed && st.deletedUsers == old(st.deletedUsers)
    ensures confirmed ==> outcome == Done && st.deletedUsers == WithoutDeleted(old(st.deletedUsers), username)
  {
    if !confirmed {
      return Dismissed;
    }
    st.deletedUsers := WithoutDeleted(st.deletedUsers, username);
    return Done;
  }

  // ---- Profile and password edits ----

  /** Replacing a user by a record with the same username keeps usernames unique. */
  lemma ReplacingKeepsUniqueUsernames(users: seq<User>, i: nat, u: User)
    requires UniqueUsernames(users) && i < |users| && u.username == users[i].username
    ensures UniqueUsernames(users[i := u])
  {
  }

  /** `updateMyInfo`: the logged-in user's own name, phone and email,
      trimmed; a blank name is refused. */
  method UpdateMyInfo(st: AppState, name: string, phone: string, email: string) returns (outcome: Outcome)
    modifies st`approvedUsers
    ensures st.currentUser.None? ==> outcome == Refused
    ensures st.currentUser.Some? && UserIndex(old(st.approvedUsers), st.currentUser.value.username).None? ==>
              outcome == NotFound
    ensures outcome != Done ==> st.approvedUsers == old(st.approvedUsers)
    ensures outcome == Done <==>
              st.currentUser.Some? && UserIndex(old(st.approvedUsers), st.currentUser.value.username).Some? &&
              !IsBlank(name)
    ensures outcome == Done ==>
              var i := UserIndex(old(st.approvedUsers), st.currentUser.value.username).value;
              st.approvedUsers == old(st.approvedUsers)[i := old(st.approvedUsers)[i].(
                name := Trim(name), phone := Trim(phone), email := Trim(email))]
  {
    if st.currentUser.None? {
      return Refused;
    }
    var found := UserIndex(st.approvedUsers, st.currentUser.value.username);
    if found.None? {
      return NotFound;
    }
    TrimEmptyIffBlank(name);
    var trimmed := Trim(name);
    if trimmed == "" {
      return Refused;
    }
    var i := found.value;
    st.approvedUsers := st.approvedUsers[i := st.approvedUsers[i].(name := trimmed, phone := Trim(phone), email := Trim(email))];
    return Done;
  }

  /** The shortest password the forms accept. */
  const MinPasswordLength: nat := 4

  /** `changePassword`: refused on a wrong current password, a confirmation
      that differs, or a new password shorter than four characters. */
  method ChangePassword(st: AppState, currentPassword: string, newPassword: string, newPasswordConfirm: string)
    returns (outcome: Outcome)
    modifies st`approvedUsers
    ensures st.currentUser.None? ==> outcome == Refused
    ensures st.currentUser.Some? && UserIndex(old(st.approvedUsers), st.currentUser.value.username).None? ==>
              outcome == NotFound
    ensures outcome != Done ==> st.approvedUsers == old(st.approvedUsers)
    ensures outcome == Done <==>
              st.currentUser.Some? && UserIndex(old(st.approvedUsers), st.currentUser.value.username).Some? &&
              var u := old(st.approvedUsers)[UserIndex(old(st.approvedUsers), st.currentUser.value.username).value];
              u.password == currentPassword && newPassword == newPasswordConfirm && |newPassword| >= MinPasswordLength
    ensures outcome == Done ==>
              var i := UserIndex(old(st.approvedUsers), st.currentUser.value.username).value;
              st.approvedUsers == old(st.approvedUsers)[i := old(st.approvedUsers)[i].(password := newPassword)]
  {
    if st.currentUser.None? {
      return Refused;
    }
    var found := UserIndex(st.approvedUsers, st.currentUser.value.username);
    if found.None? {
      return NotFound;
    }
    var i := found.value;
    if st.approvedUsers[i].password != currentPassword || newPassword != newPasswordConfirm ||
       |newPassword| < MinPasswordLength {
      return Refused;
    }
    st.approvedUsers := st.approvedUsers[i := st.approvedUsers[i].(password := newPassword)];
    return Done;
  }

  /** The user as head office's edit leaves it: the password changes only
      when a new one was typed. */
  function AdminEdited(u: User, name: string, role: string, phone: string, email: string, newPassword: string): (v: User)
    ensures v.username == u.username && v.approvedAt == u.approvedAt && v.approvedBy == u.approvedBy
    ensures v.name == Trim(name) && v.role == role && v.phone == Trim(phone) && v.email == Trim(email)
    ensures v.password == if newPassword == "" then u.password else newPassword
  {
    u.(name := Trim(name), role := role, phone := Trim(phone), email := Trim(email),
       password := if newPassword != "" then newPassword else u.password)
  }

  /** `updateApprovedUserInfo`: head office edits any approved user. Refused
      for anyone else, for a blank name, and for a new password shorter than
      four characters; an empty new password keeps the old one. */
  method UpdateApprovedUserInfo(st: AppState, username: string, name: string, role: string,
                                phone: string, email: string, newPassword: string)
    returns (outcome: Outcome)
    modifies st`approvedUsers
    ensures st.currentUser.None? || !IsTopTier(st.currentUser.value.role) ==> outcome == Refused
    ensures outcome != Done ==> st.approvedUsers == old(st.approvedUsers)
    ensures outcome == Done <==>
              st.currentUser.Some? && IsTopTier(st.currentUser.value.role) && !IsBlank(name) &&
              (newPassword == "" || |newPassword| >= MinPasswordLength) &&
              UserIndex(old(st.approvedUsers), username).Some?
    ensures outcome == Done ==>
              var i := UserIndex(old(st.approvedUsers), username).value;
              st.approvedUsers == old(st.approvedUsers)[i := AdminEdited(old(st.approvedUsers)[i], name, role, phone, email, newPassword)]
  {
    if st.currentUser.None? || !IsTopTier(st.currentUser.value.role) {
      return Refused;
    }
    TrimEmptyIffBlank(name);
    if Trim(name) == "" {
      return Refused;
    }
    if newPassword != "" && |newPassword| < MinPasswordLength {
      return Refused;
    }
    var found := UserIndex(st.approvedUsers, username);
    if found.None? {
      return NotFound;
    }
    var i := found.value;
    st.approvedUsers := st.approvedUsers[i := AdminEdited(st.approvedUsers[i], name, role, phone, email, newPassword)];
    return Done;
  }

  lemma {:induction false} OnlyHolderCount(users: seq<User>, i: nat, x: User)
    requires i < |users| && x.username == users[i].username
    requires forall j :: 0 <= j < |users| && j != i ==> users[j].username != users[i].username
    ensures multiset(users)[x] == if x == users[i] then 1 else 0
    decreases |users|
  {
    var n := |users| - 1;
    assert users == users[..n] + [users[n]];
    if i == n {
      assert forall j :: 0 <= j < n ==> users[..n][j].username != x.username;
      assert multiset(users[..n])[x] == 0;
    } else {
      OnlyHolderCount(users[..n], i, x);
    }
  }

  /** Once a user's deletion record is appended to a deleted list holding
      no other record for that username, restoring finds that record and
      leaves the deleted list as it was before. */
  lemma RestoreFindsLastDeletion(deleted: seq<DeletedUser>, last: DeletedUser)
    requires forall j :: 0 <= j < |deleted| ==> deleted[j].user.username != last.user.username
    ensures DeletedIndex(deleted + [last], last.user.username) == Some(|deleted|)
    ensures WithoutDeleted(deleted + [last], last.user.username) == deleted
  {
    var n := last.user.username;
    var s := deleted + [last];
    assert forall j :: 0 <= j < |deleted| ==> s[j] == deleted[j];
    var found := DeletedIndex(s, n);
    assert found.Some? by {
      assert s[|deleted|].user.username == n;
    }
    var p := (d: DeletedUser) => d.user.username != n;
    assert forall d :: d in deleted ==> p(d);
    FilterDropsAppended(deleted, last, p);
  }

  /** Putting back the user a filter removed restores the same users,
      counted with multiplicity, when the username was unique. */
  lemma RemoveThenAppendSameUsers(users: seq<User>, i: nat)
    requires UniqueUsernames(users) && i < |users|
    ensures multiset(WithoutUser(users, users[i].username) + [users[i]]) == multiset(users)
  {
    var n := users[i].username;
    var r := WithoutUser(users, n);
    forall x
      ensures multiset(r + [users[i]])[x] == multiset(users)[x]
    {
      if x.username == n {
        OnlyHolderCount(users, i, x);
      }
    }
  }

  /** Removing a user whose username is unique and restoring it right away:
      the username is gone from the approved list in between, restoring
      finds the new deletion record, the deleted list ends as it was, and a
      user that had an `approvedBy` comes back identical, so the approved
      users are the same ones as before (the restored user now last). */
  lemma RemoveThenRestore(users: seq<User>, deleted: seq<DeletedUser>, i: nat, user: Option<Session>, now: string)
    requires UniqueUsernames(users) && i < |users|
    requires forall j :: 0 <= j < |deleted| ==> deleted[j].user.username != users[i].username
    ensures var n := users[i].username;
            var deleted' := deleted + [DeletionRecord(users[i], user, now)];
            && UserIndex(WithoutUser(users, n), n).None?
            && DeletedIndex(deleted', n) == Some(|deleted|)
            && WithoutDeleted(deleted', n) == deleted
            && (Truthy(users[i].approvedBy) ==>
                  multiset(WithoutUser(users, n) + [Restored(deleted'[|deleted|])]) == multiset(users))
  {
    var n := users[i].username;
    var last := DeletionRecord(users[i], user, now);
    RestoreFindsLastDeletion(deleted, last);
    RemoveThenAppendSameUsers(users, i);
    var r := WithoutUser(users, n);
    forall j | 0 <= j < |r|
      ensures r[j].username != n
    {
      assert r[j] in r;
    }
    if Truthy(users[i].approvedBy) {
      assert Restored((deleted + [last])[|deleted|]) == users[i];
    }
  }
}
