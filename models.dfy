/**
 * The records of the relational store (app/models.py) and the constraints the
 * database and the request handlers keep between them.
 *
 * Each table is a sequence in row-id order: rows are never deleted, and SQLite
 * gives a new row the next id, so the row at position i has id i + 1.
 */
module Models {
  import opened Wrappers

  /** `UserRole`: a user is a student, a lecturer or an administrator. */
  datatype Role = Student | Lecturer | Admin

  /** The string value of each role, the text stored in the session after login. */
  function RoleValue(r: Role): string {
    match r
    case Student => "student"
    case Lecturer => "lecturer"
    case Admin => "admin"
  }

  /**
   * `UserRole(s)`: the role whose value is `s`. `None` stands for the
   * `ValueError` the enum raises on any other string.
   */
  function ParseRole(s: string): (r: Option<Role>)
    ensures r.Some? ==> RoleValue(r.value) == s
    ensures r.None? ==> forall role: Role :: RoleValue(role) != s
  {
    if s == "student" then Some(Student)
    else if s == "lecturer" then Some(Lecturer)
    else if s == "admin" then Some(Admin)
    else None
  }

  /** `UserRole` has exactly three values, and no two share a string value. */
  lemma RoleValuesDistinct(a: Role, b: Role)
    ensures RoleValue(a) == RoleValue(b) <==> a == b
    ensures ParseRole(RoleValue(a)) == Some(a)
  {
  }

  /** The time of an event (`datetime`); the model only stores and compares them. */
  type Timestamp = int

  /** A row of the `users` table (the creation timestamp is not modelled). */
  datatype User = User(
    id: int,
    username: string,
    email: string,
    passwordHash: string,
    firstName: string,
    lastName: string,
    role: Role,
    isActive: bool,
    lastLogin: Option<Timestamp>)
  {
    predicate IsAdmin() { role == Admin }
    predicate IsLecturer() { role == Lecturer }
    predicate IsStudent() { role == Student }

    /** `full_name`: the first name, one space, the last name. */
    function FullName(): (r: string)
      ensures |r| == |firstName| + 1 + |lastName|
      ensures r[..|firstName|] == firstName && r[|firstName|] == ' ' && r[|firstName| + 1..] == lastName
    {
      firstName + " " + lastName
    }
  }

  /** Every user has exactly one of the three roles. */
  lemma ExactlyOneRole(u: User)
    ensures u.IsAdmin() || u.IsLecturer() || u.IsStudent()
    ensures !(u.IsAdmin() && u.IsLecturer()) && !(u.IsAdmin() && u.IsStudent()) && !(u.IsLecturer() && u.IsStudent())
  {
  }

  /**
   * A new `User` row as the ORM builds it: active, never logged in, and the
   * given fields unchanged.
   */
  function NewUser(id: int, username: string, email: string, passwordHash: string,
                   firstName: string, lastName: string, role: Role): (u: User)
    ensures u.isActive && u.lastLogin == None
    ensures u.id == id && u.username == username && u.email == email && u.passwordHash == passwordHash
    ensures u.firstName == firstName && u.lastName == lastName && u.role == role
  {
    User(id, username, email, passwordHash, firstName, lastName, role, true, None)
  }

  /** A row of the `courses` table, taught by the user `lecturerId`. */
  datatype Course = Course(
    id: int,
    code: string,
    name: string,
    ects: int,
    description: Option<string>,
    lecturerId: int,
    isActive: bool)

  /** A row of the `class_groups` table: a group of course `courseId`, taught by `lecturerId`. */
  datatype ClassGroup = ClassGroup(
    id: int,
    name: string,
    semester: Option<int>,
    year: Option<int>,
    courseId: int,
    lecturerId: int,
    isActive: bool)

  /** A row of the `enrollments` table: student `studentId` attends group `groupId` (creation time not modelled). */
  datatype Enrollment = Enrollment(id: int, studentId: int, groupId: int, isActive: bool)

  // Primary keys: the row at position i has id i + 1.

  predicate UserIds(users: seq<User>) {
    forall i :: 0 <= i < |users| ==> users[i].id == i + 1
  }

  predicate CourseIds(courses: seq<Course>) {
    forall i :: 0 <= i < |courses| ==> courses[i].id == i + 1
  }

  predicate GroupIds(groups: seq<ClassGroup>) {
    forall i :: 0 <= i < |groups| ==> groups[i].id == i + 1
  }

  predicate EnrollmentIds(enrollments: seq<Enrollment>) {
    forall i :: 0 <= i < |enrollments| ==> enrollments[i].id == i + 1
  }

  /** `User.query.get(id)`: the user whose primary key is `id`, if there is one. */
  function GetUser(users: seq<User>, id: int): (r: Option<User>)
    requires UserIds(users)
    ensures r.Some? ==> r.value in users && r.value.id == id
    ensures r.None? ==> forall u :: u in users ==> u.id != id
  {
    if 1 <= id <= |users| then Some(users[id - 1]) else None
  }

  /** `Course.query.get(id)`. */
  function GetCourse(courses: seq<Course>, id: int): (r: Option<Course>)
    requires CourseIds(courses)
    ensures r.Some? ==> r.value in courses && r.value.id == id
    ensures r.None? ==> forall c :: c in courses ==> c.id != id
  {
    if 1 <= id <= |courses| then Some(courses[id - 1]) else None
  }

  /** `ClassGroup.query.get(id)`. */
  function GetGroup(groups: seq<ClassGroup>, id: int): (r: Option<ClassGroup>)
    requires GroupIds(groups)
    ensures r.Some? ==> r.value in groups && r.value.id == id
    ensures r.None? ==> forall g :: g in groups ==> g.id != id
  {
    if 1 <= id <= |groups| then Some(groups[id - 1]) else None
  }

  /** `Enrollment.query.get(id)`. */
  function GetEnrollment(enrollments: seq<Enrollment>, id: int): (r: Option<Enrollment>)
    requires EnrollmentIds(enrollments)
    ensures r.Some? ==> r.value in enrollments && r.value.id == id
    ensures r.None? ==> forall e :: e in enrollments ==> e.id != id
  {
    if 1 <= id <= |enrollments| then Some(enrollments[id - 1]) else None
  }

  // Unique columns.

  ghost predicate UniqueUsernames(users: seq<User>) {
    forall i, j :: 0 <= i < j < |users| ==> users[i].username != users[j].username
  }

  ghost predicate UniqueEmails(users: seq<User>) {
    forall i, j :: 0 <= i < j < |users| ==> users[i].email != users[j].email
  }

  ghost predicate UniqueCodes(courses: seq<Course>) {
    forall i, j :: 0 <= i < j < |courses| ==> courses[i].code != courses[j].code
  }

  /** `id` is the key of a user with role `role`. */
  predicate HasRole(users: seq<User>, id: int, role: Role) {
    1 <= id <= |users| && users[id - 1].role == role
  }

  // Non-null foreign keys, and the roles the handlers demand of the users they reference.

  ghost predicate CourseRefs(users: seq<User>, courses: seq<Course>) {
    forall i :: 0 <= i < |courses| ==> HasRole(users, courses[i].lecturerId, Lecturer)
  }

  ghost predicate GroupRefs(users: seq<User>, courses: seq<Course>, groups: seq<ClassGroup>) {
    forall i :: 0 <= i < |groups| ==>
      1 <= groups[i].courseId <= |courses| && HasRole(users, groups[i].lecturerId, Lecturer)
  }

  ghost predicate EnrollmentRefs(users: seq<User>, groups: seq<ClassGroup>, enrollments: seq<Enrollment>) {
    forall i :: 0 <= i < |enrollments| ==>
      HasRole(users, enrollments[i].studentId, Student) && 1 <= enrollments[i].groupId <= |groups|
  }

  /** An active enrollment of `studentId` in `groupId`. */
  predicate ActiveEnrollment(e: Enrollment, studentId: int, groupId: int) {
    e.isActive && e.studentId == studentId && e.groupId == groupId
  }

  /** At most one active enrollment per (student, group) pair. */
  ghost predicate OneActiveEnrollment(enrollments: seq<Enrollment>) {
    forall i, j :: 0 <= i < j < |enrollments| && enrollments[i].isActive && enrollments[j].isActive ==>
      enrollments[i].studentId != enrollments[j].studentId || enrollments[i].groupId != enrollments[j].groupId
  }

  /** Everything the database and the handlers keep true of the four tables. */
  ghost predicate StoreValid(users: seq<User>, courses: seq<Course>, groups: seq<ClassGroup>, enrollments: seq<Enrollment>) {
    && UserIds(users) && CourseIds(courses) && GroupIds(groups) && EnrollmentIds(enrollments)
    && UniqueUsernames(users) && UniqueEmails(users) && UniqueCodes(courses)
    && CourseRefs(users, courses)
    && GroupRefs(users, courses, groups)
    && EnrollmentRefs(users, groups, enrollments)
    && OneActiveEnrollment(enrollments)
  }

  // Inserting one well-formed row keeps the store valid.

  /** A course whose code is new, whose lecturer exists with role LECTURER and whose id is the next one. */
  lemma AddCourseKeepsValid(users: seq<User>, courses: seq<Course>, groups: seq<ClassGroup>,
                            enrollments: seq<Enrollment>, c: Course)
    requires StoreValid(users, courses, groups, enrollments)
    requires c.id == |courses| + 1 && HasRole(users, c.lecturerId, Lecturer)
    requires forall j :: 0 <= j < |courses| ==> courses[j].code != c.code
    ensures StoreValid(users, courses + [c], groups, enrollments)
  {
    var after := courses + [c];
    assert forall j :: 0 <= j < |courses| ==> after[j] == courses[j];
  }

  /** A group whose course exists, whose lecturer exists with role LECTURER and whose id is the next one. */
  lemma AddGroupKeepsValid(users: seq<User>, courses: seq<Course>, groups: seq<ClassGroup>,
                           enrollments: seq<Enrollment>, g: ClassGroup)
    requires StoreValid(users, courses, groups, enrollments)
    requires g.id == |groups| + 1 && 1 <= g.courseId <= |courses| && HasRole(users, g.lecturerId, Lecturer)
    ensures StoreValid(users, courses, groups + [g], enrollments)
  {
    var after := groups + [g];
    assert forall j :: 0 <= j < |groups| ==> after[j] == groups[j];
  }

  /**
   * An enrollment of an existing student in an existing group, with the next
   * id, when that pair has no active enrollment yet.
   */
  lemma AddEnrollmentKeepsValid(users: seq<User>, courses: seq<Course>, groups: seq<ClassGroup>,
                                enrollments: seq<Enrollment>, e: Enrollment)
    requires StoreValid(users, courses, groups, enrollments)
    requires e.id == |enrollments| + 1 && HasRole(users, e.studentId, Student) && 1 <= e.groupId <= |groups|
    requires forall j :: 0 <= j < |enrollments| ==> !ActiveEnrollment(enrollments[j], e.studentId, e.groupId)
    ensures StoreValid(users, courses, groups, enrollments + [e])
  {
    var after := enrollments + [e];
    assert forall j :: 0 <= j < |enrollments| ==> after[j] == enrollments[j];
  }

  /** A user whose username and e-mail are new and whose id is the next one. */
  lemma AddUserKeepsValid(users: seq<User>, courses: seq<Course>, groups: seq<ClassGroup>,
                          enrollments: seq<Enrollment>, u: User)
    requires StoreValid(users, courses, groups, enrollments)
    requires u.id == |users| + 1
    requires forall j :: 0 <= j < |users| ==> users[j].username != u.username && users[j].email != u.email
    ensures StoreValid(users + [u], courses, groups, enrollments)
  {
    var r := users + [u];
    forall id, role | HasRole(users, id, role) ensures HasRole(r, id, role) {
      assert r[id - 1] == users[id - 1];
    }
  }
}
