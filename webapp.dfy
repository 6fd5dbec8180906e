/**
 * The running application: the database tables and the visitor's session as
 * the fields of one object, and each handler of app/routes.py, each method of
 * `AuthManager` that writes (app/auth.py) and the seeding step of `create_app`
 * (app/__init__.py) as a method that either leaves every table unchanged or
 * performs exactly one insertion or one field update, and keeps every
 * constraint of the store.
 */
module WebApp {
  import opened Wrappers
  import opened Text
  import opened Models
  import opened Auth
  import opened Routes
  import opened Setup

  class App {
    var users: seq<User>
    var courses: seq<Course>
    var groups: seq<ClassGroup>
    var enrollments: seq<Enrollment>
    var session: Session
    /** `hash_password`: the digest of a password (SHA-256 in hex in the source). */
    const hash: string -> string

    /** Ids, uniqueness and foreign keys of all four tables hold. */
    ghost predicate Valid()
      reads this
    {
      StoreValid(users, courses, groups, enrollments)
    }

    /** An empty database and a visitor without a session. */
    constructor (hash: string -> string)
      ensures Valid()
      ensures users == [] && courses == [] && groups == [] && enrollments == []
      ensures session == EmptySession && this.hash == hash
    {
      users := [];
      courses := [];
      groups := [];
      enrollments := [];
      session := EmptySession;
      this.hash := hash;
    }

    // -------------------------------------------------------------------------
    // AuthManager (app/auth.py)

    /**
     * `AuthManager.login`: an unknown username or a password that does not
     * verify gives `(False, None)` and writes nothing; otherwise the user found
     * is returned and only its `last_login` becomes `now`.
     */
    method AuthLogin(username: string, password: string, now: Timestamp) returns (success: bool, user: Option<User>)
      requires Valid()
      modifies this`users
      ensures success <==> Authenticate(old(users), username, password, hash).Some?
      ensures !success ==> user == None && users == old(users)
      ensures success ==> var i := Authenticate(old(users), username, password, hash).value;
        users == RecordLogin(old(users), i, now) && user == Some(users[i])
      ensures Valid()
    {
      var found := FindUserByUsername(users, username);
      if found.None? {
        return false, None;
      }
      var i := found.value;
      if !VerifyPassword(hash, password, users[i].passwordHash) {
        return false, None;
      }
      RecordLoginKeepsValid(users, courses, groups, enrollments, i, now);
      users := users[i := users[i].(lastLogin := Some(now))];
      return true, Some(users[i]);
    }

    /**
     * `AuthManager.create_user`: `True` and one new user row exactly when
     * `CreateUserRow` accepts the arguments; `False` and an unchanged table for
     * an existing username, an unknown role string or an existing e-mail.
     */
    method CreateUser(username: string, email: string, password: string,
                      firstName: string, lastName: string, role: string) returns (ok: bool)
      requires Valid()
      modifies this`users
      ensures var row := CreateUserRow(old(users), hash, username, email, password, firstName, lastName, role);
        && ok == row.Some?
        && users == if ok then old(users) + [row.value] else old(users)
      ensures Valid()
    {
      if FindUserByUsername(users, username).Some? {
        return false;
      }
      var roleEnum := ParseRole(role);
      if roleEnum.None? {
        // the ValueError is caught and the session rolled back
        return false;
      }
      if EmailTaken(users, email) {
        // the unique constraint on email fails the commit, which is rolled back
        return false;
      }
      CreateUserKeepsValid(users, courses, groups, enrollments, hash, username, email, password, firstName, lastName, role);
      users := users + [NewUser(|users| + 1, username, email, hash(password), firstName, lastName, roleEnum.value)];
      return true;
    }

    // -------------------------------------------------------------------------
    // Seeding (app/__init__.py)

    /**
     * The seeding branch of `create_app`: on an empty users table every entry
     * of `TEST_USERS` goes to `create_user` in list order, leaving exactly the
     * three test accounts; on a non-empty table nothing is created.
     */
    method SeedTestUsers()
      requires Valid()
      modifies this`users
      ensures old(users) == [] ==> users == CreateEach([], hash, TestUsers)
      ensures old(users) == [] ==>
        && |users| == 3
        && users[0].username == "admin" && users[0].role == Admin
        && users[1].username == "prowadz1" && users[1].role == Lecturer
        && users[2].username == "student1" && users[2].role == Student
      ensures old(users) != [] ==> users == old(users)
      ensures Valid()
    {
      if |users| == 0 {
        for i := 0 to |TestUsers|
          invariant Valid()
          invariant users == CreateEach([], hash, TestUsers[..i])
        {
          var u := TestUsers[i];
          var created := CreateUser(u.username, u.email, u.password, u.firstName, u.lastName, u.role);
          assert TestUsers[..i + 1][..i] == TestUsers[..i];
        }
        assert TestUsers[..|TestUsers|] == TestUsers;
        SeedEmptyStore(hash);
      }
    }

    // -------------------------------------------------------------------------
    // Login and logout (app/routes.py)

    /**
     * `login`: a GET shows the form. A POST with the stripped username and the
     * raw password that `AuthManager.login` accepts stores the user's id, name
     * and role string in the session and redirects to the dashboard; any
     * failure, unknown user and wrong password alike, shows the one generic
     * error and leaves the session as it was.
     */
    method Login(request: Request, now: Timestamp) returns (o: Outcome)
      requires Valid()
      modifies this`users, this`session
      ensures request.Get? ==> o == Rendered(None, None) && users == old(users) && session == old(session)
      ensures request.Post? ==>
        var i := Authenticate(old(users), Field(request.form, "username"), FormGet(request.form, "password", ""), hash);
        && (i.None? ==> o == Rendered(None, Some(LoginFailed)) && users == old(users) && session == old(session))
        && (i.Some? ==> o == Redirect(DashboardPage) && users == RecordLogin(old(users), i.value, now)
                        && session == SessionAfterLogin(users[i.value]))
      ensures Valid()
    {
      if request.Get? {
        return Rendered(None, None);
      }
      var username := Field(request.form, "username");
      var password := FormGet(request.form, "password", "");
      var success, user := AuthLogin(username, password, now);
      if success {
        session := SessionAfterLogin(user.value);
        return Redirect(DashboardPage);
      }
      return Rendered(None, Some(LoginFailed));
    }

    /** `logout`: the session is emptied and the visitor sent to the login page. */
    method Logout() returns (o: Outcome)
      modifies this`session
      ensures session == EmptySession && o == Redirect(LoginPage)
    {
      session := EmptySession;
      return Redirect(LoginPage);
    }

    // -------------------------------------------------------------------------
    // Admin handlers (app/routes.py), each behind `admin_required`

    /**
     * The POST branch of `admin_users` for a form already read: a blank
     * required field shows an error and never calls `create_user`; otherwise
     * exactly the user `create_user` accepts is inserted, or the table stays
     * unchanged and the generic failure message is shown.
     */
    method AddUser(f: UserForm) returns (o: Outcome)
      requires Valid()
      modifies this`users
      ensures !UserFormComplete(f) ==> o == Rendered(None, Some(AllFieldsRequired)) && users == old(users)
      ensures var d := DecideNewUser(old(users), hash, f);
        && (d.Reject? ==> o == d.outcome && users == old(users))
        && (d.Accept? ==> o == Rendered(Some(UserCreated), None) && users == old(users) + [d.row])
      ensures Valid()
    {
      if !UserFormComplete(f) {
        return Rendered(None, Some(AllFieldsRequired));
      }
      var ok := CreateUser(f.username, f.email, f.password, f.firstName, f.lastName, f.role);
      if ok {
        return Rendered(Some(UserCreated), None);
      }
      return Rendered(None, Some(UserNotCreated));
    }

    /** `admin_users`: 403 without the admin role; a GET shows the page; a POST reads the form and goes to `AddUser`. */
    method AdminUsers(request: Request) returns (o: Outcome)
      requires Valid()
      modifies this`users
      ensures !AdminRequired(session) ==> o == Forbidden && users == old(users)
      ensures AdminRequired(session) && request.Get? ==> o == Rendered(None, None) && users == old(users)
      ensures AdminRequired(session) && request.Post? ==>
        var d := DecideNewUser(old(users), hash, ReadUserForm(request.form));
        && (d.Reject? ==> o == d.outcome && users == old(users))
        && (d.Accept? ==> o == Rendered(Some(UserCreated), None) && users == old(users) + [d.row])
      ensures Valid()
    {
      if !AdminRequired(session) {
        return Forbidden;
      }
      if request.Get? {
        return Rendered(None, None);
      }
      o := AddUser(ReadUserForm(request.form));
    }

    /**
     * `admin_toggle_user`: 403 without the admin role, 404 for an unknown id,
     * no change when the admin targets their own account, and otherwise only
     * that user's `is_active` flips.
     */
    method AdminToggleUser(userId: int) returns (o: Outcome)
      requires Valid()
      modifies this`users
      ensures !AdminRequired(session) ==> o == Forbidden && users == old(users)
      ensures AdminRequired(session) && GetUser(old(users), userId).None? ==> o == NotFound && users == old(users)
      ensures AdminRequired(session) && GetUser(old(users), userId).Some? ==> o == Redirect(AdminUsersPage)
      ensures AdminRequired(session) && GetUser(old(users), userId).Some? && session.userId == Some(userId) ==>
        users == old(users)
      ensures AdminRequired(session) && GetUser(old(users), userId).Some? && session.userId != Some(userId) ==>
        users == ToggleUser(old(users), userId - 1)
      ensures Valid()
    {
      if !AdminRequired(session) {
        return Forbidden;
      }
      var user := GetUser(users, userId);
      if user.None? {
        return NotFound;
      }
      if session.userId == Some(user.value.id) {
        return Redirect(AdminUsersPage);
      }
      ToggleUserProperties(users, courses, groups, enrollments, userId - 1);
      users := ToggleUser(users, userId - 1);
      return Redirect(AdminUsersPage);
    }

    /**
     * The POST branch of `admin_courses` for a form already read: exactly the
     * course `DecideCourse` accepts is inserted; otherwise its outcome is given
     * and the table stays unchanged.
     */
    method AddCourse(f: CourseForm) returns (o: Outcome)
      requires Valid()
      modifies this`courses
      ensures var d := DecideCourse(users, old(courses), f);
        && (d.Reject? ==> o == d.outcome && courses == old(courses))
        && (d.Accept? ==> o == Rendered(Some(CourseCreated), None) && courses == old(courses) + [d.row])
      ensures Valid()
    {
      var d := DecideCourse(users, courses, f);
      if d.Reject? {
        return d.outcome;
      }
      CourseInsertKeepsValid(users, courses, groups, enrollments, f);
      courses := courses + [d.row];
      return Rendered(Some(CourseCreated), None);
    }

    /** `admin_courses`: 403 without the admin role; a GET shows the page; a POST reads the form and goes to `AddCourse`. */
    method AdminCourses(request: Request) returns (o: Outcome)
      requires Valid()
      modifies this`courses
      ensures !AdminRequired(session) ==> o == Forbidden && courses == old(courses)
      ensures AdminRequired(session) && request.Get? ==> o == Rendered(None, None) && courses == old(courses)
      ensures AdminRequired(session) && request.Post? ==>
        var d := DecideCourse(users, old(courses), ReadCourseForm(request.form));
        && (d.Reject? ==> o == d.outcome && courses == old(courses))
        && (d.Accept? ==> o == Rendered(Some(CourseCreated), None) && courses == old(courses) + [d.row])
      ensures Valid()
    {
      if !AdminRequired(session) {
        return Forbidden;
      }
      if request.Get? {
        return Rendered(None, None);
      }
      o := AddCourse(ReadCourseForm(request.form));
    }

    /**
     * `admin_toggle_course`: 403 without the admin role, 404 for an unknown id,
     * and otherwise only that course's `is_active` flips.
     */
    method AdminToggleCourse(courseId: int) returns (o: Outcome)
      requires Valid()
      modifies this`courses
      ensures !AdminRequired(session) ==> o == Forbidden && courses == old(courses)
      ensures AdminRequired(session) && GetCourse(old(courses), courseId).None? ==> o == NotFound && courses == old(courses)
      ensures AdminRequired(session) && GetCourse(old(courses), courseId).Some? ==>
        o == Redirect(AdminCoursesPage) && courses == ToggleCourse(old(courses), courseId - 1)
      ensures Valid()
    {
      if !AdminRequired(session) {
        return Forbidden;
      }
      var course := GetCourse(courses, courseId);
      if course.None? {
        return NotFound;
      }
      ToggleCourseProperties(users, courses, groups, enrollments, courseId - 1);
      courses := ToggleCourse(courses, courseId - 1);
      return Redirect(AdminCoursesPage);
    }

    /**
     * The POST branch of `admin_groups` for a form already read: exactly the
     * group `DecideGroup` accepts is inserted; otherwise its outcome is given
     * and the table stays unchanged.
     */
    method AddGroup(f: GroupForm) returns (o: Outcome)
      requires Valid()
      modifies this`groups
      ensures var d := DecideGroup(users, courses, old(groups), f);
        && (d.Reject? ==> o == d.outcome && groups == old(groups))
        && (d.Accept? ==> o == Rendered(Some(GroupCreated), None) && groups == old(groups) + [d.row])
      ensures Valid()
    {
      var d := DecideGroup(users, courses, groups, f);
      if d.Reject? {
        return d.outcome;
      }
      GroupInsertKeepsValid(users, courses, groups, enrollments, f);
      groups := groups + [d.row];
      return Rendered(Some(GroupCreated), None);
    }

    /** `admin_groups`: 403 without the admin role; a GET shows the page; a POST reads the form and goes to `AddGroup`. */
    method AdminGroups(request: Request) returns (o: Outcome)
      requires Valid()
      modifies this`groups
      ensures !AdminRequired(session) ==> o == Forbidden && groups == old(groups)
      ensures AdminRequired(session) && request.Get? ==> o == Rendered(None, None) && groups == old(groups)
      ensures AdminRequired(session) && request.Post? ==>
        var d := DecideGroup(users, courses, old(groups), ReadGroupForm(request.form));
        && (d.Reject? ==> o == d.outcome && groups == old(groups))
        && (d.Accept? ==> o == Rendered(Some(GroupCreated), None) && groups == old(groups) + [d.row])
      ensures Valid()
    {
      if !AdminRequired(session) {
        return Forbidden;
      }
      if request.Get? {
        return Rendered(None, None);
      }
      o := AddGroup(ReadGroupForm(request.form));
    }

    /**
     * The POST branch of `admin_group_students` for the existing group
     * `groupId` and the stripped `student_id` field: exactly the enrollment
     * `DecideEnrollment` accepts is inserted; otherwise its outcome is given
     * and the table stays unchanged.
     */
    method AddStudentToGroup(groupId: int, studentField: string) returns (o: Outcome)
      requires Valid()
      requires 1 <= groupId <= |groups|
      modifies this`enrollments
      ensures var d := DecideEnrollment(users, old(enrollments), groupId, studentField);
        && (d.Reject? ==> o == d.outcome && enrollments == old(enrollments))
        && (d.Accept? ==> o == Rendered(Some(StudentAdded), None) && enrollments == old(enrollments) + [d.row])
      ensures Valid()
    {
      var d := DecideEnrollment(users, enrollments, groupId, studentField);
      if d.Reject? {
        return d.outcome;
      }
      EnrollmentInsertKeepsValid(users, courses, groups, enrollments, groupId, studentField);
      enrollments := enrollments + [d.row];
      return Rendered(Some(StudentAdded), None);
    }

    /**
     * `admin_group_students`: 403 without the admin role, 404 for an unknown
     * group; a GET shows the page; a POST strips `student_id` and goes to
     * `AddStudentToGroup`.
     */
    method AdminGroupStudents(groupId: int, request: Request) returns (o: Outcome)
      requires Valid()
      modifies this`enrollments
      ensures !AdminRequired(session) ==> o == Forbidden && enrollments == old(enrollments)
      ensures AdminRequired(session) && GetGroup(groups, groupId).None? ==> o == NotFound && enrollments == old(enrollments)
      ensures AdminRequired(session) && GetGroup(groups, groupId).Some? && request.Get? ==>
        o == Rendered(None, None) && enrollments == old(enrollments)
      ensures AdminRequired(session) && GetGroup(groups, groupId).Some? && request.Post? ==>
        var d := DecideEnrollment(users, old(enrollments), groupId, Field(request.form, "student_id"));
        && (d.Reject? ==> o == d.outcome && enrollments == old(enrollments))
        && (d.Accept? ==> o == Rendered(Some(StudentAdded), None) && enrollments == old(enrollments) + [d.row])
      ensures Valid()
    {
      if !AdminRequired(session) {
        return Forbidden;
      }
      var group := GetGroup(groups, groupId);
      if group.None? {
        return NotFound;
      }
      if request.Get? {
        return Rendered(None, None);
      }
      o := AddStudentToGroup(groupId, Field(request.form, "student_id"));
    }

    /**
     * `admin_remove_enrollment`: 403 without the admin role, 404 for an unknown
     * id, and otherwise only that enrollment's `is_active` becomes false (the
     * row stays) and the admin returns to its group's page.
     */
    method AdminRemoveEnrollment(enrollmentId: int) returns (o: Outcome)
      requires Valid()
      modifies this`enrollments
      ensures !AdminRequired(session) ==> o == Forbidden && enrollments == old(enrollments)
      ensures AdminRequired(session) && GetEnrollment(old(enrollments), enrollmentId).None? ==>
        o == NotFound && enrollments == old(enrollments)
      ensures AdminRequired(session) && GetEnrollment(old(enrollments), enrollmentId).Some? ==>
        && o == Redirect(GroupStudentsPage(old(enrollments)[enrollmentId - 1].groupId))
        && enrollments == Deactivate(old(enrollments), enrollmentId - 1)
      ensures Valid()
    {
      if !AdminRequired(session) {
        return Forbidden;
      }
      var enr := GetEnrollment(enrollments, enrollmentId);
      if enr.None? {
        return NotFound;
      }
      var groupId := enr.value.groupId;
      DeactivateKeepsValid(users, courses, groups, enrollments, enrollmentId - 1);
      enrollments := Deactivate(enrollments, enrollmentId - 1);
      return Redirect(GroupStudentsPage(groupId));
    }
  }
}
