/**
 * The decision logic of the request handlers in app/routes.py: the role
 * guards, the read-only views, and for every form that inserts a row the
 * validation that decides between an error and exactly one new row.
 * The class in webapp.dfy applies these decisions to the store.
 */
module Routes {
  import opened Wrappers
  import opened Text
  import opened Models
  import opened Auth

  /**
   * The server-side session. The application only ever writes the keys
   * `user_id`, `username` and `role`; a key that is absent is `None`.
   */
  datatype Session = Session(userId: Option<int>, username: Option<string>, role: Option<string>)

  /** The session after `session.clear()`, and of a visitor who never logged in. */
  const EmptySession: Session := Session(None, None, None)

  /** An HTTP request: a GET, or a POST with its form fields. */
  datatype Request = Get | Post(form: map<string, string>)

  /** `request.form.get(key, default)`. */
  function FormGet(form: map<string, string>, key: string, default: string): string {
    if key in form then form[key] else default
  }

  /**
   * `v` is a stripped read of `key`: the form's value with only white space cut
   * off its ends, blank exactly when the key is missing or its value is all
   * white space, and never starting or ending with white space.
   */
  ghost predicate ReadsField(form: map<string, string>, key: string, v: string) {
    && (key in form ==> exists p, q :: AllSpace(p) && AllSpace(q) && form[key] == p + v + q)
    && (v == [] <==> key !in form || AllSpace(form[key]))
    && Trimmed(v)
  }

  /** `request.form.get(key, "").strip()`: how the handlers read a text field. */
  function Field(form: map<string, string>, key: string): (r: string)
    ensures ReadsField(form, key, r)
  {
    Strip(FormGet(form, key, ""))
  }

  /** The pages a handler redirects to (`url_for`). */
  datatype Page = LoginPage | DashboardPage | AdminUsersPage | AdminCoursesPage | GroupStudentsPage(groupId: int)

  /** What a handler answers. */
  datatype Outcome =
    | Rendered(message: Option<string>, error: Option<string>)  // a form page, with its success message or error
    | Redirect(to: Page)
    | DashboardView(user: Option<User>)
    | LecturerView(lecturer: User, courses: seq<Course>, groups: seq<ClassGroup>)
    | Forbidden    // abort(403)
    | NotFound     // get_or_404
    | ServerError  // an exception that no handler catches

  /** The decision of a form handler: an answer and no change, or one row to insert. */
  datatype Decision<T> = Reject(outcome: Outcome) | Accept(row: T)

  // The messages the handlers show.
  const LoginFailed := "Błędna nazwa użytkownika lub hasło."
  const AllFieldsRequired := "Wszystkie pola są wymagane."
  const UserCreated := "Użytkownik został utworzony."
  const UserNotCreated := "Nie udało się utworzyć użytkownika (być może istnieje już taki login lub e‑mail)."
  const CourseFieldsRequired := "Pola: kod, nazwa, ECTS i prowadzący są wymagane."
  const EctsNotInteger := "ECTS musi być liczbą całkowitą."
  const NotALecturer := "Wybrany prowadzący nie jest wykładowcą."
  const CourseCreated := "Kurs został utworzony."
  const GroupFieldsRequired := "Pola: nazwa grupy, kurs i prowadzący są wymagane."
  const SemesterYearNotNumbers := "Semestr i rok muszą być liczbami."
  const CourseMissing := "Wybrany kurs nie istnieje."
  const GroupCreated := "Grupa została utworzona."
  const StudentRequired := "Musisz wybrać studenta."
  const NotAStudent := "Wybrany użytkownik nie jest studentem."
  const AlreadyEnrolled := "Ten student jest już zapisany do tej grupy."
  const StudentAdded := "Student został dodany do grupy."

  function CourseCodeExists(code: string): string {
    "Kurs o kodzie " + code + " już istnieje."
  }

  // ---------------------------------------------------------------------------
  // Guards and the session

  /**
   * `admin_required`: the wrapped view runs only when the session's role is
   * exactly "admin", the value of the administrator role.
   */
  predicate AdminRequired(s: Session)
    ensures AdminRequired(s) <==> s.role.Some? && ParseRole(s.role.value) == Some(Admin)
  {
    s.role == Some("admin")
  }

  /**
   * `lecturer_required`: the wrapped view runs only when the session's role is
   * exactly "lecturer", the value of the lecturer role; no session passes both
   * guards.
   */
  predicate LecturerRequired(s: Session)
    ensures LecturerRequired(s) <==> s.role.Some? && ParseRole(s.role.value) == Some(Lecturer)
    ensures LecturerRequired(s) ==> !AdminRequired(s)
  {
    s.role == Some("lecturer")
  }

  /** What `login` stores in the session for user `u`: its id, its username and its role's string value. */
  function SessionAfterLogin(u: User): (s: Session)
    ensures s.userId == Some(u.id) && s.username == Some(u.username) && s.role == Some(RoleValue(u.role))
  {
    Session(Some(u.id), Some(u.username), Some(RoleValue(u.role)))
  }

  /**
   * After logging in, the admin guard lets through exactly the administrators
   * and the lecturer guard exactly the lecturers; after logout neither does.
   */
  lemma GuardsAfterLogin(u: User)
    ensures AdminRequired(SessionAfterLogin(u)) <==> u.IsAdmin()
    ensures LecturerRequired(SessionAfterLogin(u)) <==> u.IsLecturer()
    ensures !AdminRequired(EmptySession) && !LecturerRequired(EmptySession)
  {
  }

  // ---------------------------------------------------------------------------
  // Read-only views

  /** `dashboard`: anonymous visitors (no `user_id`, or a falsy one) are sent to the login page. */
  function Dashboard(session: Session, users: seq<User>): (o: Outcome)
    requires UserIds(users)
    ensures o.Redirect? <==> session.userId.None? || session.userId == Some(0)
    ensures o.Redirect? ==> o.to == LoginPage
    ensures !o.Redirect? ==> o == DashboardView(GetUser(users, session.userId.value))
  {
    match session.userId
    case None => Redirect(LoginPage)
    case Some(id) => if id == 0 then Redirect(LoginPage) else DashboardView(GetUser(users, id))
  }

  /** The dashboard of a session that just logged in shows that user; after logout it redirects to login. */
  lemma DashboardAfterLogin(users: seq<User>, i: nat)
    requires UserIds(users)
    requires i < |users|
    ensures Dashboard(SessionAfterLogin(users[i]), users) == DashboardView(Some(users[i]))
    ensures Dashboard(EmptySession, users) == Redirect(LoginPage)
  {
  }

  /**
   * `Course.query.filter_by(lecturer_id=id)`: every course taught by `id`, as
   * many times as it occurs in the table, and no other course.
   */
  function CoursesTaughtBy(courses: seq<Course>, id: int): (r: seq<Course>)
    ensures forall c :: multiset(r)[c] == if c.lecturerId == id then multiset(courses)[c] else 0
  {
    if courses == [] then []
    else
      var rest := CoursesTaughtBy(courses[1..], id);
      assert courses == [courses[0]] + courses[1..];
      if courses[0].lecturerId == id then [courses[0]] + rest else rest
  }

  /**
   * `ClassGroup.query.filter_by(lecturer_id=id)`: every group taught by `id`,
   * as many times as it occurs in the table, and no other group.
   */
  function GroupsTaughtBy(groups: seq<ClassGroup>, id: int): (r: seq<ClassGroup>)
    ensures forall g :: multiset(r)[g] == if g.lecturerId == id then multiset(groups)[g] else 0
  {
    if groups == [] then []
    else
      var rest := GroupsTaughtBy(groups[1..], id);
      assert groups == [groups[0]] + groups[1..];
      if groups[0].lecturerId == id then [groups[0]] + rest else rest
  }

  /**
   * `lecturer_courses`: for a lecturer session whose user exists, exactly the
   * courses and the groups whose `lecturer_id` is the session's user id.
   */
  function LecturerCourses(session: Session, users: seq<User>, courses: seq<Course>, groups: seq<ClassGroup>): (o: Outcome)
    requires UserIds(users)
    ensures o == Forbidden <==> !LecturerRequired(session)
    ensures LecturerRequired(session) ==> (o == NotFound <==> session.userId.None? || GetUser(users, session.userId.value).None?)
    ensures o == Forbidden || o == NotFound || o.LecturerView?
    ensures o.LecturerView? ==> session.userId == Some(o.lecturer.id) && o.lecturer in users
    ensures o.LecturerView? ==> forall c :: multiset(o.courses)[c] == if c.lecturerId == o.lecturer.id then multiset(courses)[c] else 0
    ensures o.LecturerView? ==> forall g :: multiset(o.groups)[g] == if g.lecturerId == o.lecturer.id then multiset(groups)[g] else 0
  {
    if !LecturerRequired(session) then Forbidden
    else if session.userId.None? then NotFound
    else
      match GetUser(users, session.userId.value)
      case None => NotFound
      case Some(lecturer) =>
        LecturerView(lecturer, CoursesTaughtBy(courses, lecturer.id), GroupsTaughtBy(groups, lecturer.id))
  }

  // ---------------------------------------------------------------------------
  // admin_users: create a user

  /** The fields of the user form, as `admin_users` reads them (all stripped except password and role). */
  datatype UserForm = UserForm(username: string, email: string, password: string,
                               firstName: string, lastName: string, role: string)

  /**
   * The user form as `admin_users` reads it: the names and the e-mail stripped,
   * the password exactly as sent, and the role "student" when the form has none.
   */
  function ReadUserForm(form: map<string, string>): (f: UserForm)
    ensures ReadsField(form, "username", f.username) && ReadsField(form, "email", f.email)
    ensures ReadsField(form, "first_name", f.firstName) && ReadsField(form, "last_name", f.lastName)
    ensures "password" in form ==> f.password == form["password"]
    ensures "password" !in form ==> f.password == ""
    ensures "role" !in form ==> f.role == RoleValue(Student)
    ensures "role" in form ==> f.role == form["role"]
  {
    UserForm(Field(form, "username"), Field(form, "email"), FormGet(form, "password", ""),
             Field(form, "first_name"), Field(form, "last_name"), FormGet(form, "role", "student"))
  }

  predicate UserFormComplete(f: UserForm) {
    f.username != "" && f.email != "" && f.password != "" && f.firstName != "" && f.lastName != ""
  }

  /**
   * `admin_users` on POST: a blank field is an error and `create_user` is not
   * called; otherwise the row `create_user` inserts, or its failure message.
   */
  function DecideNewUser(users: seq<User>, hash: string -> string, f: UserForm): (d: Decision<User>)
    ensures !UserFormComplete(f) ==> d == Reject(Rendered(None, Some(AllFieldsRequired)))
    ensures d.Accept? <==> UserFormComplete(f) && CreateUserRow(users, hash, f.username, f.email, f.password, f.firstName, f.lastName, f.role).Some?
    ensures d.Accept? ==> d.row == CreateUserRow(users, hash, f.username, f.email, f.password, f.firstName, f.lastName, f.role).value
    ensures UserFormComplete(f) && d.Reject? ==> d == Reject(Rendered(None, Some(UserNotCreated)))
  {
    if !UserFormComplete(f) then Reject(Rendered(None, Some(AllFieldsRequired)))
    else
      match CreateUserRow(users, hash, f.username, f.email, f.password, f.firstName, f.lastName, f.role)
      case None => Reject(Rendered(None, Some(UserNotCreated)))
      case Some(u) => Accept(u)
  }

  /**
   * A complete user form without a role field creates a student when the
   * username and the e-mail are new: `admin_users` reads the role as "student".
   */
  lemma MissingRoleMakesStudent(users: seq<User>, hash: string -> string, form: map<string, string>)
    requires "role" !in form
    requires UserFormComplete(ReadUserForm(form))
    requires forall j :: 0 <= j < |users| ==> users[j].username != ReadUserForm(form).username
    requires !EmailTaken(users, ReadUserForm(form).email)
    ensures DecideNewUser(users, hash, ReadUserForm(form)).Accept?
    ensures DecideNewUser(users, hash, ReadUserForm(form)).row.role == Student
  {
    RoleValuesDistinct(Student, Student);
  }

  // ---------------------------------------------------------------------------
  // admin_courses: create a course

  /** The fields of the course form, stripped. */
  datatype CourseForm = CourseForm(code: string, name: string, ects: string, description: string, lecturerId: string)

  /** The course form as `admin_courses` reads it: every field stripped. */
  function ReadCourseForm(form: map<string, string>): (f: CourseForm)
    ensures ReadsField(form, "code", f.code) && ReadsField(form, "name", f.name) && ReadsField(form, "ects", f.ects)
    ensures ReadsField(form, "description", f.description) && ReadsField(form, "lecturer_id", f.lecturerId)
  {
    CourseForm(Field(form, "code"), Field(form, "name"), Field(form, "ects"), Field(form, "description"), Field(form, "lecturer_id"))
  }

  /** Some course, active or not, already has this code. */
  predicate CodeTaken(courses: seq<Course>, code: string) {
    exists j :: 0 <= j < |courses| && courses[j].code == code
  }

  /** `description or None`: a blank description is stored as NULL. */
  function OptionalText(s: string): (r: Option<string>)
    ensures r.None? <==> s == ""
    ensures r.Some? ==> r.value == s
  {
    if s == "" then None else Some(s)
  }

  /**
   * `admin_courses` on POST: one new course exactly when code, name, ECTS and
   * lecturer are filled in, ECTS is an integer, no course has the code, and the
   * lecturer id is an integer naming a user with role LECTURER. A lecturer id
   * that is not an integer raises an uncaught `ValueError`.
   */
  function DecideCourse(users: seq<User>, courses: seq<Course>, f: CourseForm): (d: Decision<Course>)
    requires UserIds(users)
    ensures d.Accept? <==>
      && f.code != "" && f.name != "" && f.ects != "" && f.lecturerId != ""
      && ParseInt(f.ects).Some?
      && !CodeTaken(courses, f.code)
      && ParseInt(f.lecturerId).Some?
      && HasRole(users, ParseInt(f.lecturerId).value, Lecturer)
    ensures d.Accept? ==> d.row == Course(|courses| + 1, f.code, f.name, ParseInt(f.ects).value,
                                          OptionalText(f.description), ParseInt(f.lecturerId).value, true)
    ensures d == Reject(ServerError) <==>
      && f.code != "" && f.name != "" && f.ects != "" && f.lecturerId != ""
      && ParseInt(f.ects).Some? && !CodeTaken(courses, f.code) && ParseInt(f.lecturerId).None?
    ensures CodeTaken(courses, f.code) ==> d.Reject?
    ensures d.Reject? && d.outcome != ServerError ==> d.outcome.Rendered? && d.outcome.message.None? && d.outcome.error.Some?
    ensures (f.code == "" || f.name == "" || f.ects == "" || f.lecturerId == "") ==>
      d == Reject(Rendered(None, Some(CourseFieldsRequired)))
    ensures f.code != "" && f.name != "" && f.ects != "" && f.lecturerId != "" && ParseInt(f.ects).None? ==>
      d == Reject(Rendered(None, Some(EctsNotInteger)))
    ensures f.code != "" && f.name != "" && f.ects != "" && f.lecturerId != "" && ParseInt(f.ects).Some?
            && CodeTaken(courses, f.code) ==>
      d == Reject(Rendered(None, Some(CourseCodeExists(f.code))))
    ensures d.Reject? && d.outcome != ServerError && f.code != "" && f.name != "" && f.ects != "" && f.lecturerId != ""
            && ParseInt(f.ects).Some? && !CodeTaken(courses, f.code) ==>
      d == Reject(Rendered(None, Some(NotALecturer)))
  {
    if f.code == "" || f.name == "" || f.ects == "" || f.lecturerId == "" then
      Reject(Rendered(None, Some(CourseFieldsRequired)))
    else
      match ParseInt(f.ects)
      case None => Reject(Rendered(None, Some(EctsNotInteger)))
      case Some(ects) =>
        if CodeTaken(courses, f.code) then Reject(Rendered(None, Some(CourseCodeExists(f.code))))
        else
          match ParseInt(f.lecturerId)
          case None => Reject(ServerError)
          case Some(lecturerId) =>
            match GetUser(users, lecturerId)
            case None => Reject(Rendered(None, Some(NotALecturer)))
            case Some(lecturer) =>
              if lecturer.role != Lecturer then Reject(Rendered(None, Some(NotALecturer)))
              else Accept(Course(|courses| + 1, f.code, f.name, ects, OptionalText(f.description), lecturer.id, true))
  }

  /** A course that `admin_courses` inserts keeps every constraint of the store. */
  lemma CourseInsertKeepsValid(users: seq<User>, courses: seq<Course>, groups: seq<ClassGroup>,
                               enrollments: seq<Enrollment>, f: CourseForm)
    requires StoreValid(users, courses, groups, enrollments)
    requires DecideCourse(users, courses, f).Accept?
    ensures StoreValid(users, courses + [DecideCourse(users, courses, f).row], groups, enrollments)
  {
    var c := DecideCourse(users, courses, f).row;
    assert !CodeTaken(courses, c.code);
    AddCourseKeepsValid(users, courses, groups, enrollments, c);
  }

  /** Once a course with a code exists, every later request for that code is refused and inserts nothing. */
  lemma CourseCodeTwice(users: seq<User>, courses: seq<Course>, f: CourseForm, g: CourseForm)
    requires UserIds(users)
    requires DecideCourse(users, courses, f).Accept?
    requires g.code == f.code
    ensures DecideCourse(users, courses + [DecideCourse(users, courses, f).row], g).Reject?
  {
    var after := courses + [DecideCourse(users, courses, f).row];
    assert after[|courses|].code == g.code;
  }

  // ---------------------------------------------------------------------------
  // admin_groups: create a class group

  /** The fields of the group form, stripped. */
  datatype GroupForm = GroupForm(name: string, courseId: string, lecturerId: string, semester: string, year: string)

  /** The group form as `admin_groups` reads it: every field stripped. */
  function ReadGroupForm(form: map<string, string>): (f: GroupForm)
    ensures ReadsField(form, "name", f.name) && ReadsField(form, "course_id", f.courseId)
    ensures ReadsField(form, "lecturer_id", f.lecturerId)
    ensures ReadsField(form, "semester", f.semester) && ReadsField(form, "year", f.year)
  {
    GroupForm(Field(form, "name"), Field(form, "course_id"), Field(form, "lecturer_id"), Field(form, "semester"), Field(form, "year"))
  }

  /**
   * `int(s) if s else None`: a blank field is absent (`Some(None)`), anything
   * else must be an integer; `None` stands for the `ValueError`.
   */
  function ParseOptionalInt(s: string): (r: Option<Option<int>>)
    ensures s == "" ==> r == Some(None)
    ensures s != "" ==> (r.Some? <==> ParseInt(s).Some?) && (r.Some? ==> r.value == ParseInt(s) && r.value.Some?)
  {
    if s == "" then Some(None)
    else
      match ParseInt(s)
      case None => None
      case Some(v) => Some(Some(v))
  }

  /**
   * `admin_groups` on POST: one new group exactly when name, course and
   * lecturer are filled in, semester and year are blank or integers, the course
   * id names a course and the lecturer id a user with role LECTURER. A course or
   * lecturer id that is not an integer raises an uncaught `ValueError`.
   */
  function DecideGroup(users: seq<User>, courses: seq<Course>, groups: seq<ClassGroup>, f: GroupForm): (d: Decision<ClassGroup>)
    requires UserIds(users) && CourseIds(courses)
    ensures d.Accept? <==>
      && f.name != "" && f.courseId != "" && f.lecturerId != ""
      && ParseOptionalInt(f.semester).Some? && ParseOptionalInt(f.year).Some?
      && ParseInt(f.courseId).Some? && ParseInt(f.lecturerId).Some?
      && 1 <= ParseInt(f.courseId).value <= |courses|
      && HasRole(users, ParseInt(f.lecturerId).value, Lecturer)
    ensures d.Accept? ==> d.row == ClassGroup(|groups| + 1, f.name, ParseOptionalInt(f.semester).value,
                                              ParseOptionalInt(f.year).value, ParseInt(f.courseId).value,
                                              ParseInt(f.lecturerId).value, true)
    ensures d == Reject(ServerError) <==>
      && f.name != "" && f.courseId != "" && f.lecturerId != ""
      && ParseOptionalInt(f.semester).Some? && ParseOptionalInt(f.year).Some?
      && (ParseInt(f.courseId).None? || ParseInt(f.lecturerId).None?)
    ensures d.Reject? && d.outcome != ServerError ==> d.outcome.Rendered? && d.outcome.message.None? && d.outcome.error.Some?
    ensures (f.name == "" || f.courseId == "" || f.lecturerId == "") ==>
      d == Reject(Rendered(None, Some(GroupFieldsRequired)))
    ensures f.name != "" && f.courseId != "" && f.lecturerId != ""
            && (ParseOptionalInt(f.semester).None? || ParseOptionalInt(f.year).None?) ==>
      d == Reject(Rendered(None, Some(SemesterYearNotNumbers)))
    ensures d.Reject? && ParseInt(f.courseId).Some? && ParseInt(f.lecturerId).Some? && f.name != "" && f.courseId != ""
            && f.lecturerId != "" && ParseOptionalInt(f.semester).Some? && ParseOptionalInt(f.year).Some? ==>
      d == Reject(Rendered(None, Some(if 1 <= ParseInt(f.courseId).value <= |courses| then NotALecturer else CourseMissing)))
  {
    if f.name == "" || f.courseId == "" || f.lecturerId == "" then
      Reject(Rendered(None, Some(GroupFieldsRequired)))
    else if ParseOptionalInt(f.semester).None? || ParseOptionalInt(f.year).None? then
      Reject(Rendered(None, Some(SemesterYearNotNumbers)))
    else if ParseInt(f.courseId).None? || ParseInt(f.lecturerId).None? then
      Reject(ServerError)
    else
      match GetCourse(courses, ParseInt(f.courseId).value)
      case None => Reject(Rendered(None, Some(CourseMissing)))
      case Some(course) =>
        match GetUser(users, ParseInt(f.lecturerId).value)
        case None => Reject(Rendered(None, Some(NotALecturer)))
        case Some(lecturer) =>
          if lecturer.role != Lecturer then Reject(Rendered(None, Some(NotALecturer)))
          else Accept(ClassGroup(|groups| + 1, f.name, ParseOptionalInt(f.semester).value,
                                 ParseOptionalInt(f.year).value, course.id, lecturer.id, true))
  }

  /** A group that `admin_groups` inserts keeps every constraint of the store. */
  lemma GroupInsertKeepsValid(users: seq<User>, courses: seq<Course>, groups: seq<ClassGroup>,
                              enrollments: seq<Enrollment>, f: GroupForm)
    requires StoreValid(users, courses, groups, enrollments)
    requires DecideGroup(users, courses, groups, f).Accept?
    ensures StoreValid(users, courses, groups + [DecideGroup(users, courses, groups, f).row], enrollments)
  {
    var g := DecideGroup(users, courses, groups, f).row;
    AddGroupKeepsValid(users, courses, groups, enrollments, g);
  }

  // ---------------------------------------------------------------------------
  // admin_group_students: enroll a student

  /** Student `studentId` has an active enrollment in group `groupId`. */
  predicate HasActiveEnrollment(enrollments: seq<Enrollment>, studentId: int, groupId: int) {
    exists j :: 0 <= j < |enrollments| && ActiveEnrollment(enrollments[j], studentId, groupId)
  }

  /**
   * `admin_group_students` on POST, for the existing group `groupId`: one new
   * active enrollment exactly when the student id is filled in and names a user
   * with role STUDENT that has no active enrollment in the group. A student id
   * that is not an integer raises an uncaught `ValueError`.
   */
  function DecideEnrollment(users: seq<User>, enrollments: seq<Enrollment>, groupId: int, studentField: string): (d: Decision<Enrollment>)
    requires UserIds(users)
    ensures d.Accept? <==>
      && studentField != ""
      && ParseInt(studentField).Some?
      && HasRole(users, ParseInt(studentField).value, Student)
      && !HasActiveEnrollment(enrollments, ParseInt(studentField).value, groupId)
    ensures d.Accept? ==> d.row == Enrollment(|enrollments| + 1, ParseInt(studentField).value, groupId, true)
    ensures d == Reject(ServerError) <==> studentField != "" && ParseInt(studentField).None?
    ensures d.Reject? && d.outcome != ServerError ==> d.outcome.Rendered? && d.outcome.message.None? && d.outcome.error.Some?
    ensures studentField == "" ==> d == Reject(Rendered(None, Some(StudentRequired)))
    ensures studentField != "" && ParseInt(studentField).Some? && !HasRole(users, ParseInt(studentField).value, Student) ==>
      d == Reject(Rendered(None, Some(NotAStudent)))
    ensures studentField != "" && ParseInt(studentField).Some? && HasRole(users, ParseInt(studentField).value, Student)
            && HasActiveEnrollment(enrollments, ParseInt(studentField).value, groupId) ==>
      d == Reject(Rendered(None, Some(AlreadyEnrolled)))
  {
    if studentField == "" then Reject(Rendered(None, Some(StudentRequired)))
    else
      match ParseInt(studentField)
      case None => Reject(ServerError)
      case Some(studentId) =>
        match GetUser(users, studentId)
        case None => Reject(Rendered(None, Some(NotAStudent)))
        case Some(student) =>
          if student.role != Student then Reject(Rendered(None, Some(NotAStudent)))
          else if HasActiveEnrollment(enrollments, student.id, groupId) then Reject(Rendered(None, Some(AlreadyEnrolled)))
          else Accept(Enrollment(|enrollments| + 1, student.id, groupId, true))
  }

  /** An enrollment that `admin_group_students` inserts keeps every constraint, one active enrollment per pair included. */
  lemma EnrollmentInsertKeepsValid(users: seq<User>, courses: seq<Course>, groups: seq<ClassGroup>,
                                   enrollments: seq<Enrollment>, groupId: int, studentField: string)
    requires StoreValid(users, courses, groups, enrollments)
    requires 1 <= groupId <= |groups|
    requires DecideEnrollment(users, enrollments, groupId, studentField).Accept?
    ensures StoreValid(users, courses, groups, enrollments + [DecideEnrollment(users, enrollments, groupId, studentField).row])
  {
    var e := DecideEnrollment(users, enrollments, groupId, studentField).row;
    assert !HasActiveEnrollment(enrollments, e.studentId, groupId);
    AddEnrollmentKeepsValid(users, courses, groups, enrollments, e);
  }

  /** Enrolling the same student in the same group again, while the first enrollment is active, is refused. */
  lemma EnrollTwiceRejected(users: seq<User>, enrollments: seq<Enrollment>, groupId: int, studentField: string)
    requires UserIds(users)
    requires DecideEnrollment(users, enrollments, groupId, studentField).Accept?
    ensures DecideEnrollment(users, enrollments + [DecideEnrollment(users, enrollments, groupId, studentField).row],
                             groupId, studentField) == Reject(Rendered(None, Some(AlreadyEnrolled)))
  {
    var e := DecideEnrollment(users, enrollments, groupId, studentField).row;
    var after := enrollments + [e];
    assert ActiveEnrollment(after[|enrollments|], e.studentId, groupId);
  }

  // ---------------------------------------------------------------------------
  // Soft deletion: the is_active flips

  /** `admin_remove_enrollment`: enrollment `i` becomes inactive; the row stays and nothing else changes. */
  function Deactivate(enrollments: seq<Enrollment>, i: nat): (r: seq<Enrollment>)
    requires i < |enrollments|
    ensures |r| == |enrollments|
    ensures r[i] == enrollments[i].(isActive := false)
    ensures forall j :: 0 <= j < |enrollments| && j != i ==> r[j] == enrollments[j]
  {
    enrollments[i := enrollments[i].(isActive := false)]
  }

  /** Removing an enrollment twice is the same as removing it once. */
  lemma DeactivateIdempotent(enrollments: seq<Enrollment>, i: nat)
    requires i < |enrollments|
    ensures Deactivate(Deactivate(enrollments, i), i) == Deactivate(enrollments, i)
  {
  }

  /** Removing an enrollment keeps every constraint of the store. */
  lemma DeactivateKeepsValid(users: seq<User>, courses: seq<Course>, groups: seq<ClassGroup>,
                             enrollments: seq<Enrollment>, i: nat)
    requires StoreValid(users, courses, groups, enrollments)
    requires i < |enrollments|
    ensures StoreValid(users, courses, groups, Deactivate(enrollments, i))
  {
  }

  /**
   * After an active enrollment is removed, enrolling the same student in the
   * same group again is accepted: the removed row no longer counts, and it was
   * the pair's only active one.
   */
  lemma ReenrollAfterRemove(users: seq<User>, courses: seq<Course>, groups: seq<ClassGroup>,
                            enrollments: seq<Enrollment>, i: nat)
    requires StoreValid(users, courses, groups, enrollments)
    requires i < |enrollments| && enrollments[i].isActive
    ensures DecideEnrollment(users, Deactivate(enrollments, i), enrollments[i].groupId,
                             IntString(enrollments[i].studentId)).Accept?
  {
    var e := enrollments[i];
    var after := Deactivate(enrollments, i);
    ParseIntString(e.studentId);
    assert IntString(e.studentId) != "";
    forall j | 0 <= j < |after| ensures !ActiveEnrollment(after[j], e.studentId, e.groupId) {
      if j < i {
        assert after[j] == enrollments[j];
        assert !enrollments[j].isActive || enrollments[j].studentId != e.studentId || enrollments[j].groupId != e.groupId;
      } else if j > i {
        assert after[j] == enrollments[j];
        assert !enrollments[j].isActive || enrollments[j].studentId != e.studentId || enrollments[j].groupId != e.groupId;
      }
    }
  }

  /** `admin_toggle_user`: user `i`'s `is_active` flips; the row stays and nothing else changes. */
  function ToggleUser(users: seq<User>, i: nat): (r: seq<User>)
    requires i < |users|
    ensures |r| == |users|
    ensures r[i] == users[i].(isActive := !users[i].isActive)
    ensures forall j :: 0 <= j < |users| && j != i ==> r[j] == users[j]
  {
    users[i := users[i].(isActive := !users[i].isActive)]
  }

  /** Toggling a user twice restores it, and toggling keeps every constraint of the store. */
  lemma ToggleUserProperties(users: seq<User>, courses: seq<Course>, groups: seq<ClassGroup>,
                             enrollments: seq<Enrollment>, i: nat)
    requires StoreValid(users, courses, groups, enrollments)
    requires i < |users|
    ensures ToggleUser(ToggleUser(users, i), i) == users
    ensures StoreValid(ToggleUser(users, i), courses, groups, enrollments)
  {
    var r := ToggleUser(users, i);
    forall id, role | HasRole(users, id, role) ensures HasRole(r, id, role) {
    }
  }

  /** `admin_toggle_course`: course `i`'s `is_active` flips; the row stays and nothing else changes. */
  function ToggleCourse(courses: seq<Course>, i: nat): (r: seq<Course>)
    requires i < |courses|
    ensures |r| == |courses|
    ensures r[i] == courses[i].(isActive := !courses[i].isActive)
    ensures forall j :: 0 <= j < |courses| && j != i ==> r[j] == courses[j]
  {
    courses[i := courses[i].(isActive := !courses[i].isActive)]
  }

  /** Toggling a course twice restores it, and toggling keeps every constraint of the store. */
  lemma ToggleCourseProperties(users: seq<User>, courses: seq<Course>, groups: seq<ClassGroup>,
                               enrollments: seq<Enrollment>, i: nat)
    requires StoreValid(users, courses, groups, enrollments)
    requires i < |courses|
    ensures ToggleCourse(ToggleCourse(courses, i), i) == courses
    ensures StoreValid(users, ToggleCourse(courses, i), groups, enrollments)
  {
  }
}
