/** Sign-in, sign-up and sign-out. Sign-in checks the typed credentials
    against the approved users; sign-up validates the form and either files
    a registration request or, for the very first CEO account, approves it
    on the spot; sign-out clears the session. */
module Auth {
  import opened Common
  import opened Text
  import opened Domain
  import opened Users

  // ---- handleLogin ----

  /** The approved user the typed credentials identify: the username is
      trimmed, the password is compared exactly, and an empty field fails. */
  function Authenticate(users: seq<User>, usernameInput: string, password: string): Option<User>
  {
    var username := Trim(usernameInput);
    if username == "" || password == "" then None
    else match UserIndex(users, username)
      case None => None
      case Some(i) => if users[i].password == password then Some(users[i]) else None
  }

  /** Sign-in succeeds only as an approved user with exactly that password;
      when usernames are unique, every approved user gets in with their own
      password. */
  lemma AuthenticateSoundAndComplete(users: seq<User>, usernameInput: string, password: string)
    ensures var r := Authenticate(users, usernameInput, password);
            r.Some? ==> r.value in users && r.value.username == Trim(usernameInput) &&
                        r.value.password == password && password != "" && Trim(usernameInput) != ""
    ensures UniqueUsernames(users) && Trim(usernameInput) != "" && password != "" ==>
              forall k :: 0 <= k < |users| && users[k].username == Trim(usernameInput) &&
                          users[k].password == password ==>
                          Authenticate(users, usernameInput, password) == Some(users[k])
  {
  }

  /** `handleLogin`: the session copies the approved user's role. */
  method HandleLogin(st: AppState, usernameInput: string, password: string, now: string) returns (outcome: Outcome)
    modifies st`currentUser
    ensures Trim(usernameInput) == "" || password == "" ==> outcome == Refused
    ensures Trim(usernameInput) != "" && password != "" && UserIndex(st.approvedUsers, Trim(usernameInput)).None? ==>
              outcome == NotFound
    ensures outcome != Done ==> st.currentUser == old(st.currentUser)
    ensures outcome == Done <==> Authenticate(st.approvedUsers, usernameInput, password).Some?
    ensures outcome == Done ==>
              st.currentUser == Some(Session(Trim(usernameInput),
                                             Authenticate(st.approvedUsers, usernameInput, password).value.role, now))
  {
    var username := Trim(usernameInput);
    if username == "" || password == "" {
      return Refused;
    }
    var found := UserIndex(st.approvedUsers, username);
    if found.None? {
      return NotFound;
    }
    var user := st.approvedUsers[found.value];
    if user.password != password {
      return Refused;
    }
    st.currentUser := Some(Session(username, user.role, now));
    return Done;
  }

  /** After `changePassword` succeeded, the new password signs in and an old,
      different one no longer does. */
  lemma ChangedPasswordSignsIn(users: seq<User>, username: string, oldPassword: string, newPassword: string)
    requires UserIndex(users, username).Some? && Trim(username) == username && username != ""
    requires |newPassword| >= MinPasswordLength
    ensures var i := UserIndex(users, username).value;
            var users' := users[i := users[i].(password := newPassword)];
            && Authenticate(users', username, newPassword) == Some(users'[i])
            && (oldPassword != newPassword ==> Authenticate(users', username, oldPassword).None?)
  {
    var i := UserIndex(users, username).value;
    var users' := users[i := users[i].(password := newPassword)];
    assert UserIndex(users', username) == Some(i) by {
      assert forall k :: 0 <= k < i ==> users'[k] == users[k];
      assert users'[i].username == username;
    }
  }

  // ---- handleRegister ----

  /** How a registration ends. */
  datatype Registration =
    | MissingField | PasswordMismatch | PasswordTooShort
    | AlreadyApproved | AlreadyRequested
    | FirstCeoApproved | Requested

  predicate HasPendingRequest(requests: seq<UserRequest>, username: string)
  {
    exists k :: 0 <= k < |requests| && requests[k].username == username && requests[k].status == RequestPending
  }

  predicate HasCeo(users: seq<User>)
  {
    exists k :: 0 <= k < |users| && users[k].role == "ceo"
  }

  /** The checks of `handleRegister`, in the order they are made;
      `username` and `name` are already trimmed. */
  function RegistrationVerdict(users: seq<User>, requests: seq<UserRequest>, username: string,
                               password: string, passwordConfirm: string, role: string, name: string): (r: Registration)
    ensures r == FirstCeoApproved || r == Requested <==>
              && username != "" && password != "" && role != "" && name != ""
              && password == passwordConfirm && |password| >= MinPasswordLength
              && UserIndex(users, username).None? && !HasPendingRequest(requests, username)
    ensures r == FirstCeoApproved <==>
              (r == FirstCeoApproved || r == Requested) && role == "ceo" && !HasCeo(users)
  {
    if username == "" || password == "" || role == "" || name == "" then MissingField
    else if password != passwordConfirm then PasswordMismatch
    else if |password| < MinPasswordLength then PasswordTooShort
    else if UserIndex(users, username).Some? then AlreadyApproved
    else if HasPendingRequest(requests, username) then AlreadyRequested
    else if role == "ceo" && !HasCeo(users) then FirstCeoApproved
    else Requested
  }

  /** `handleRegister` on the browser-storage path; `id` stands for
      `Date.now()`. The first CEO is added to the approved users directly
      (its request record is built but never stored); anyone else files a
      pending request. */
  method HandleRegister(st: AppState, usernameInput: string, password: string, passwordConfirm: string,
                        role: string, nameInput: string, phone: string, email: string, id: int, now: string)
    returns (verdict: Registration)
    modifies st`approvedUsers, st`userRequests
    ensures verdict == RegistrationVerdict(old(st.approvedUsers), old(st.userRequests), Trim(usernameInput),
                                           password, passwordConfirm, role, Trim(nameInput))
    ensures verdict == FirstCeoApproved ==>
              && st.approvedUsers == old(st.approvedUsers) +
                   [User(Trim(usernameInput), password, role, Trim(nameInput), Trim(phone), Trim(email), now, "system")]
              && st.userRequests == old(st.userRequests)
    ensures verdict == Requested ==>
              && st.userRequests == old(st.userRequests) +
                   [NewRequest(id, Trim(usernameInput), password, role, Trim(nameInput), Trim(phone), Trim(email), now)]
              && st.approvedUsers == old(st.approvedUsers)
    ensures verdict != FirstCeoApproved && verdict != Requested ==>
              st.approvedUsers == old(st.approvedUsers) && st.userRequests == old(st.userRequests)
  {
    var username := Trim(usernameInput);
    var name := Trim(nameInput);
    verdict := RegistrationVerdict(st.approvedUsers, st.userRequests, username, password, passwordConfirm, role, name);
    if verdict == FirstCeoApproved {
      st.approvedUsers := st.approvedUsers + [User(username, password, role, name, Trim(phone), Trim(email), now, "system")];
    } else if verdict == Requested {
      st.userRequests := st.userRequests + [NewRequest(id, username, password, role, name, Trim(phone), Trim(email), now)];
    }
  }

  function NewRequest(id: int, username: string, password: string, role: string, name: string,
                      phone: string, email: string, now: string): UserRequest
  {
    UserRequest(id, username, password, role, name, phone, email, RequestPending, now, None, None, None, None, None)
  }

  /** No two pending requests share a username. */
  predicate UniquePending(requests: seq<UserRequest>)
  {
    forall i, j :: (0 <= i < j < |requests| && requests[i].status == RequestPending &&
                    requests[j].status == RequestPending) ==> requests[i].username != requests[j].username
  }

  /** Registration keeps approved usernames unique and pending requests
      unique per username. */
  lemma RegistrationKeepsUniqueness(users: seq<User>, requests: seq<UserRequest>, username: string,
                                    password: string, passwordConfirm: string, role: string, name: string,
                                    phone: string, email: string, id: int, now: string)
    requires UniqueUsernames(users) && UniquePending(requests)
    ensures RegistrationVerdict(users, requests, username, password, passwordConfirm, role, name) == FirstCeoApproved ==>
              UniqueUsernames(users + [User(username, password, role, name, phone, email, now, "system")])
    ensures RegistrationVerdict(users, requests, username, password, passwordConfirm, role, name) == Requested ==>
              UniquePending(requests + [NewRequest(id, username, password, role, name, phone, email, now)])
  {
    var v := RegistrationVerdict(users, requests, username, password, passwordConfirm, role, name);
    if v == FirstCeoApproved {
      var users' := users + [User(username, password, role, name, phone, email, now, "system")];
      forall i, j | 0 <= i < j < |users'|
        ensures users'[i].username != users'[j].username
      {
        if j == |users| {
          assert users'[i] == users[i];
        }
      }
    }
    if v == Requested {
      var requests' := requests + [NewRequest(id, username, password, role, name, phone, email, now)];
      forall i, j | 0 <= i < j < |requests'| && requests'[i].status == RequestPending && requests'[j].status == RequestPending
        ensures requests'[i].username != requests'[j].username
      {
        if j == |requests| {
          assert requests'[i] == requests[i];
        }
      }
    }
  }

  /** Only one CEO account is ever approved automatically: once one exists,
      a CEO registration only files a request. */
  lemma SecondCeoOnlyRequests(users: seq<User>, requests: seq<UserRequest>, ceo: User, username: string,
                              password: string, passwordConfirm: string, name: string)
    requires ceo.role == "ceo"
    ensures RegistrationVerdict(users + [ceo], requests, username, password, passwordConfirm, "ceo", name) != FirstCeoApproved
  {
    assert (users + [ceo])[|users|] == ceo;
  }

  // ---- handleLogout ----

  /** `handleLogout`; `confirmed` is the answer to its `confirm`. */
  method HandleLogout(st: AppState, confirmed: bool)
    modifies st`currentUser
    ensures confirmed ==> st.currentUser.None?
    ensures !confirmed ==> st.currentUser == old(st.currentUser)
  {
    if confirmed {
      st.currentUser := None;
    }
  }
}
