/**
 * The seeding step of `create_app` (app/__init__.py) and the fixed test
 * accounts it creates (`TEST_USERS` in config.py).
 */
module Setup {
  import opened Wrappers
  import opened Models
  import opened Auth
  import opened Routes

  /** One entry of `TEST_USERS`: the arguments handed to `create_user`. */
  datatype SeedUser = SeedUser(username: string, email: string, password: string,
                               firstName: string, lastName: string, role: string)

  const TestUsers: seq<SeedUser> := [
    SeedUser("admin", "admin@uczelni.edu", "admin123", "Adam", "Admin", "admin"),
    SeedUser("prowadz1", "jan.kowalski@uczelni.edu", "pass123", "Jan", "Kowalski", "lecturer"),
    SeedUser("student1", "anna.nowak@student.uczelni.edu", "pass123", "Anna", "Nowak", "student")
  ]

  /** The users table after one `create_user` call with the fields of `s`, unchanged. */
  function CreateStep(users: seq<User>, hash: string -> string, s: SeedUser): (r: seq<User>)
  {
    match CreateUserRow(users, hash, s.username, s.email, s.password, s.firstName, s.lastName, s.role)
    case None => users
    case Some(u) => users + [u]
  }

  /** The users table after `create_user` has been called for each of `seeds`, in list order. */
  function CreateEach(users: seq<User>, hash: string -> string, seeds: seq<SeedUser>): (r: seq<User>)
    ensures |users| <= |r| <= |users| + |seeds|
  {
    if seeds == [] then users
    else CreateStep(CreateEach(users, hash, seeds[..|seeds| - 1]), hash, seeds[|seeds| - 1])
  }

  /**
   * Seeding an empty store creates the three accounts in list order: `admin`
   * with role admin, `prowadz1` with role lecturer and `student1` with role
   * student, each active and storing the digest of its password.
   */
  lemma {:induction false} SeedEmptyStore(hash: string -> string)
    ensures CreateEach([], hash, TestUsers) == [
      User(1, "admin", "admin@uczelni.edu", hash("admin123"), "Adam", "Admin", Admin, true, None),
      User(2, "prowadz1", "jan.kowalski@uczelni.edu", hash("pass123"), "Jan", "Kowalski", Lecturer, true, None),
      User(3, "student1", "anna.nowak@student.uczelni.edu", hash("pass123"), "Anna", "Nowak", Student, true, None)]
  {
    var u1 := User(1, "admin", "admin@uczelni.edu", hash("admin123"), "Adam", "Admin", Admin, true, None);
    var u2 := User(2, "prowadz1", "jan.kowalski@uczelni.edu", hash("pass123"), "Jan", "Kowalski", Lecturer, true, None);
    var u3 := User(3, "student1", "anna.nowak@student.uczelni.edu", hash("pass123"), "Anna", "Nowak", Student, true, None);
    assert TestUsers[..2][..1] == TestUsers[..1];
    assert TestUsers[..1][..0] == [];
    assert CreateEach([], hash, TestUsers[..1]) == [u1];
    assert CreateEach([], hash, TestUsers[..2]) == [u1, u2];
    assert TestUsers[..3] == TestUsers;
  }

  /**
   * After seeding, logging in as `student1` with `pass123` succeeds, and the
   * session it opens passes neither the admin guard nor the lecturer guard.
   */
  lemma SeededStudentLogin(hash: string -> string)
    ensures var users := CreateEach([], hash, TestUsers);
      && Authenticate(users, "student1", "pass123", hash) == Some(2)
      && !AdminRequired(SessionAfterLogin(users[2])) && !LecturerRequired(SessionAfterLogin(users[2]))
  {
    SeedEmptyStore(hash);
    var users := CreateEach([], hash, TestUsers);
    assert users[0].username == "admin" && users[1].username == "prowadz1" && users[2].username == "student1";
    assert FindUserByUsername(users, "student1") == Some(2);
  }

  /** After seeding, logging in as `admin` with `admin123` succeeds and the session passes the admin guard. */
  lemma SeededAdminLogin(hash: string -> string)
    ensures var users := CreateEach([], hash, TestUsers);
      && Authenticate(users, "admin", "admin123", hash) == Some(0)
      && AdminRequired(SessionAfterLogin(users[0]))
  {
    SeedEmptyStore(hash);
    var users := CreateEach([], hash, TestUsers);
    assert users[0].username == "admin";
    assert FindUserByUsername(users, "admin") == Some(0);
  }
}
