/**
 * The credential store (`AuthManager` in app/auth.py): password hashing,
 * authentication of a username/password pair, and user creation.
 *
 * The digest function (SHA-256 in hex) is a parameter `hash`; nothing is
 * assumed about it, not even that it is injective.
 */
module Auth {
  import opened Wrappers
  import opened Models

  /** `verify_password`: the password matches when its digest is the stored one. */
  predicate VerifyPassword(hash: string -> string, password: string, passwordHash: string) {
    hash(password) == passwordHash
  }

  /**
   * `User.query.filter_by(username=username).first()`: the position of the
   * first user, in row order, with that username.
   */
  function FindUserByUsername(users: seq<User>, username: string): (r: Option<nat>)
    ensures r.Some? ==> r.value < |users| && users[r.value].username == username
    ensures r.Some? ==> forall j :: 0 <= j < r.value ==> users[j].username != username
    ensures r.None? <==> forall j :: 0 <= j < |users| ==> users[j].username != username
  {
    FindUserFrom(users, username, 0)
  }

  function FindUserFrom(users: seq<User>, username: string, start: nat): (r: Option<nat>)
    requires start <= |users|
    requires forall j :: 0 <= j < start ==> users[j].username != username
    ensures r.Some? ==> start <= r.value < |users| && users[r.value].username == username
    ensures r.Some? ==> forall j :: 0 <= j < r.value ==> users[j].username != username
    ensures r.None? <==> forall j :: 0 <= j < |users| ==> users[j].username != username
    decreases |users| - start
  {
    if start == |users| then None
    else if users[start].username == username then Some(start)
    else FindUserFrom(users, username, start + 1)
  }

  /** With unique usernames, the user found is the only one with that name. */
  lemma {:induction false} FindUniqueUsername(users: seq<User>, i: nat)
    requires UniqueUsernames(users)
    requires i < |users|
    ensures FindUserByUsername(users, users[i].username) == Some(i)
  {
  }

  /**
   * The decision of `AuthManager.login`: the position of the user to log in,
   * or `None` for the `(False, None)` answer. Both failures, an unknown
   * username and a wrong password, give the same answer.
   */
  function Authenticate(users: seq<User>, username: string, password: string, hash: string -> string): (r: Option<nat>)
    ensures r.Some? ==> r.value < |users| && users[r.value].username == username
    ensures r.Some? ==> VerifyPassword(hash, password, users[r.value].passwordHash)
    ensures (forall j :: 0 <= j < |users| ==> users[j].username != username) ==> r.None?
  {
    match FindUserByUsername(users, username)
    case None => None
    case Some(i) => if VerifyPassword(hash, password, users[i].passwordHash) then Some(i) else None
  }

  /**
   * In a store with unique usernames, login succeeds exactly when some user has
   * that username and the password's digest is that user's stored hash.
   */
  lemma AuthenticateSucceedsIff(users: seq<User>, username: string, password: string, hash: string -> string)
    requires UniqueUsernames(users)
    ensures Authenticate(users, username, password, hash).Some? <==>
      exists i :: 0 <= i < |users| && users[i].username == username && hash(password) == users[i].passwordHash
  {
    if i :| 0 <= i < |users| && users[i].username == username && hash(password) == users[i].passwordHash {
      FindUniqueUsername(users, i);
    }
  }

  /** What a successful `login` writes: `last_login` of user `i` becomes `now`; nothing else changes. */
  function RecordLogin(users: seq<User>, i: nat, now: Timestamp): (r: seq<User>)
    requires i < |users|
    ensures |r| == |users|
    ensures r[i] == users[i].(lastLogin := Some(now))
    ensures forall j :: 0 <= j < |users| && j != i ==> r[j] == users[j]
  {
    users[i := users[i].(lastLogin := Some(now))]
  }

  /** Recording a login keeps every constraint of the store. */
  lemma RecordLoginKeepsValid(users: seq<User>, courses: seq<Course>, groups: seq<ClassGroup>,
                              enrollments: seq<Enrollment>, i: nat, now: Timestamp)
    requires StoreValid(users, courses, groups, enrollments)
    requires i < |users|
    ensures StoreValid(RecordLogin(users, i, now), courses, groups, enrollments)
  {
    var r := RecordLogin(users, i, now);
    forall id, role | HasRole(users, id, role) ensures HasRole(r, id, role) {
    }
  }

  /** Some user already has this e-mail address: the unique constraint on `email` fails the commit. */
  predicate EmailTaken(users: seq<User>, email: string) {
    exists j :: 0 <= j < |users| && users[j].email == email
  }

  /**
   * The decision of `AuthManager.create_user`: the row it inserts, or `None`
   * for `False`. It refuses a username that exists, a role string outside the
   * three values (the `ValueError` is caught and rolled back) and an e-mail
   * address that exists (the commit fails and is rolled back).
   */
  function CreateUserRow(users: seq<User>, hash: string -> string, username: string, email: string,
                         password: string, firstName: string, lastName: string, role: string): (r: Option<User>)
    ensures r.Some? <==>
      && (forall j :: 0 <= j < |users| ==> users[j].username != username)
      && ParseRole(role).Some?
      && !EmailTaken(users, email)
    ensures r.Some? ==> r.value == NewUser(|users| + 1, username, email, hash(password), firstName, lastName, ParseRole(role).value)
    ensures r.Some? ==> RoleValue(r.value.role) == role && r.value.isActive
  {
    if FindUserByUsername(users, username).Some? then None
    else
      match ParseRole(role)
      case None => None
      case Some(roleEnum) =>
        if EmailTaken(users, email) then None
        else Some(NewUser(|users| + 1, username, email, hash(password), firstName, lastName, roleEnum))
  }

  /** A user that `create_user` inserts keeps every constraint of the store. */
  lemma CreateUserKeepsValid(users: seq<User>, courses: seq<Course>, groups: seq<ClassGroup>,
                             enrollments: seq<Enrollment>, hash: string -> string, username: string, email: string,
                             password: string, firstName: string, lastName: string, role: string)
    requires StoreValid(users, courses, groups, enrollments)
    requires CreateUserRow(users, hash, username, email, password, firstName, lastName, role).Some?
    ensures StoreValid(users + [CreateUserRow(users, hash, username, email, password, firstName, lastName, role).value],
                       courses, groups, enrollments)
  {
    var u := CreateUserRow(users, hash, username, email, password, firstName, lastName, role).value;
    forall j | 0 <= j < |users| ensures users[j].email != u.email {
      if users[j].email == u.email {
        assert EmailTaken(users, email);
      }
    }
    AddUserKeepsValid(users, courses, groups, enrollments, u);
  }

  /**
   * `create_user` twice with the same username: the first call inserts a row,
   * the second is refused, and exactly one user has that username afterwards.
   */
  lemma CreateUserTwice(users: seq<User>, hash: string -> string, username: string,
                        email: string, password: string, firstName: string, lastName: string, role: string,
                        email2: string, password2: string, firstName2: string, lastName2: string, role2: string)
    requires CreateUserRow(users, hash, username, email, password, firstName, lastName, role).Some?
    ensures var after := users + [CreateUserRow(users, hash, username, email, password, firstName, lastName, role).value];
      && CreateUserRow(after, hash, username, email2, password2, firstName2, lastName2, role2).None?
      && forall j :: 0 <= j < |after| ==> (after[j].username == username <==> j == |users|)
  {
    var after := users + [CreateUserRow(users, hash, username, email, password, firstName, lastName, role).value];
    assert after[|users|].username == username;
  }

  /**
   * A user that `create_user` inserted can log in with the password it was
   * created with: `verify_password` recomputes exactly the digest that was stored.
   */
  lemma CreatedUserCanLogIn(users: seq<User>, hash: string -> string, username: string, email: string,
                            password: string, firstName: string, lastName: string, role: string)
    requires CreateUserRow(users, hash, username, email, password, firstName, lastName, role).Some?
    ensures var after := users + [CreateUserRow(users, hash, username, email, password, firstName, lastName, role).value];
      Authenticate(after, username, password, hash) == Some(|users|)
  {
    var after := users + [CreateUserRow(users, hash, username, email, password, firstName, lastName, role).value];
    assert after[|users|].username == username;
    assert forall j :: 0 <= j < |users| ==> after[j] == users[j];
  }
}
