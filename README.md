# UBI web app: a verified model of the admin core

This project models the core of a small Flask application for a university. Administrators use it to manage users, courses, class groups and enrollments. Lecturers see the courses and groups they teach. The model covers:

- the credential store `AuthManager` (`app/auth.py`): hashing, password check, login and user creation;
- the records of `app/models.py`: users with three roles, courses, class groups and enrollments, with their defaults, unique columns and foreign keys;
- the request handlers of `app/routes.py`: the admin and lecturer guards, login and logout, the dashboard, the lecturer's own courses, and every admin handler that creates a row or flips an `is_active` flag;
- the seeding step of `create_app` (`app/__init__.py`), which creates the three `TEST_USERS` of `config.py` when the user table is empty.

Files and modules:

- `wrappers.dfy` (`Wrappers`): `Option`.
- `text.dfy` (`Text`): Python's `str.strip()` and `int()` for the form fields the handlers read.
- `models.dfy` (`Models`): the records, the roles, primary-key lookups and `StoreValid`. `StoreValid` is the invariant every handler keeps: ids, unique usernames, e-mails and course codes, references that point to existing rows of the required role, and at most one active enrollment per (student, group) pair.
- `auth.dfy` (`Auth`): `AuthManager` as pure functions over the users table, with the hash function as a parameter.
- `routes.dfy` (`Routes`): sessions, requests, outcomes, the guards, and one pure `Decide*` function per form handler. Each one says whether the form is accepted, and which row it inserts or which error the page shows.
- `setup.dfy` (`Setup`): `TEST_USERS` and what seeding an empty store produces.
- `webapp.dfy` (`WebApp`): class `App` holds the four tables and the session as fields. Each handler is a method that applies the matching decision in place and keeps `Valid()` (that is, `StoreValid`).

Modelling choices:

- Each table is a sequence in row-id order, and the row at position `i` has id `i + 1`. No handler deletes a row, and SQLite gives each new row the next id. So `query.get(id)` is an index, `.first()` is the first match in row order, and a new row's id is the table's length plus one.
- The session is a record of the three keys the application writes (`user_id`, `username`, `role`). Each key may be missing.
- `hash_password` (SHA-256 in hex) is a function-typed parameter of the pure functions and a constant field of `App`. Nothing is assumed about it, not even injectivity.
- `datetime.now()` for `last_login` is a `now` parameter of login.
- A request is `Get` or `Post(form)`. `request.form.get(key, "").strip()` is `Field(form, key)`.
- `int()` accepts surrounding white space, one optional sign, and ASCII digits with single underscores between them. `None` stands for the `ValueError`.
- A `ValueError` that no handler catches (`int(lecturer_id)` in `admin_courses`, `int(course_id)`/`int(lecturer_id)` in `admin_groups`, `int(student_id)` in `admin_group_students`) becomes the outcome `ServerError`, and nothing is written.

An unknown role string does not end the request. `create_user` converts it inside its `try` block (`app/auth.py:74`), catches the `ValueError`, rolls back and returns `False` (`app/auth.py:88-91`). `admin_users` then shows its generic "could not create user" message. `Auth.CreateUserRow` and `WebApp.App.AddUser` model that.

## Model

| member | source | states |
|---|---|---|
| Text.StripLeftCuts | UBI_WEB_APP/app/routes.py:141 | `lstrip` keeps a suffix of its input, removes only white space, and the result does not start with white space |
| Text.StripRightCuts | UBI_WEB_APP/app/routes.py:141 | `rstrip` keeps a prefix of its input, removes only white space, and the result does not end with white space |
| Text.Strip | UBI_WEB_APP/app/routes.py:141-145 | `strip()` cuts only white space off both ends; the result is empty exactly when the input is all white space, and otherwise neither starts nor ends with white space |
| Text.StripTrimmed | UBI_WEB_APP/app/routes.py:141 | text without white space at its ends is left unchanged by `strip()` |
| Text.StripIdempotent | UBI_WEB_APP/app/routes.py:141 | `strip()` applied twice equals `strip()` applied once |
| Text.ParseInt | UBI_WEB_APP/app/routes.py:221 | `int()` raises on a blank or all-white-space string |
| Text.IntString | UBI_WEB_APP/app/routes.py:371 | `str(n)`, the reference inverse of `int()`: the way a page writes an id such as the `student_id` that `int()` reads back (used by `Text.ParseIntString` and `Routes.ReenrollAfterRemove`); a minus sign exactly when `n` is negative, followed only by digits |
| Text.NatString | UBI_WEB_APP/app/routes.py:371 | the digits of `str(n)` for a natural number, part of the reference inverse of `int()`: non-empty and all digits |
| Text.NatStringValue | UBI_WEB_APP/app/routes.py:371 | the digits that `str(n)`, the reference inverse of `int()`, writes have value `n` |
| Text.NumeralString | UBI_WEB_APP/app/routes.py:371 | `str(n)`, the reference inverse of `int()`, is a signed numeral denoting `n`, with no white space at its ends |
| Text.ParseIntString | UBI_WEB_APP/app/routes.py:221 | `int(str(n)) == n` for every integer: `int` reads back every id the way it is written |
| Models.ParseRole | UBI_WEB_APP/app/models.py:16-20 | `UserRole(s)` gives the role whose value is `s`, and fails exactly when no role has value `s` |
| Models.RoleValuesDistinct | UBI_WEB_APP/app/models.py:16-20 | the three role values are pairwise distinct, and parsing a role's value gives that role back |
| Models.User.FullName | UBI_WEB_APP/app/models.py:45-48 | `full_name` is the first name, one space and the last name, and both names can be read back from it |
| Models.ExactlyOneRole | UBI_WEB_APP/app/models.py:51-58 | `is_admin`, `is_lecturer` and `is_student` each test one role, so exactly one of them holds for any user |
| Models.NewUser | UBI_WEB_APP/app/models.py:31-40 | a new user row is active, has never logged in, and keeps the given fields |
| Models.GetUser | UBI_WEB_APP/app/routes.py:231 | `User.query.get(id)` returns the user with that id, or nothing when no user has it |
| Models.GetCourse | UBI_WEB_APP/app/routes.py:315 | `Course.query.get(id)` returns the course with that id, or nothing when no course has it |
| Models.GetGroup | UBI_WEB_APP/app/routes.py:361 | `ClassGroup.query.get_or_404(id)` finds the group with that id, or nothing when no group has it |
| Models.GetEnrollment | UBI_WEB_APP/app/routes.py:427 | `Enrollment.query.get_or_404(id)` finds the enrollment with that id, or nothing when no enrollment has it |
| Models.AddUserKeepsValid | UBI_WEB_APP/app/models.py:31-33 | a user row with the next id, a new username and a new e-mail keeps every constraint of the store |
| Models.AddCourseKeepsValid | UBI_WEB_APP/app/models.py:69-78 | a course row with the next id, a new code and an existing lecturer keeps every constraint of the store |
| Models.AddGroupKeepsValid | UBI_WEB_APP/app/models.py:93-105 | a group row with the next id, an existing course and an existing lecturer keeps every constraint of the store |
| Models.AddEnrollmentKeepsValid | UBI_WEB_APP/app/models.py:122-131 | an enrollment row with the next id, an existing student and group, and no active enrollment of the same pair keeps every constraint of the store |
| Auth.VerifyPassword | UBI_WEB_APP/app/auth.py:31-35 | `verify_password` holds exactly when the digest of the given password equals the stored hash; nothing else about the digest is assumed |
| Auth.FindUserByUsername | UBI_WEB_APP/app/auth.py:45 | `filter_by(username=...).first()` finds the first user with that username in row order, and finds nothing exactly when no user has it |
| Auth.FindUserFrom | UBI_WEB_APP/app/auth.py:45 | the search from a position on finds the first matching user at or after it |
| Auth.Authenticate | UBI_WEB_APP/app/auth.py:45-57 | `login` succeeds only for a user with that username whose stored hash is the digest of the password; an unknown username always fails |
| Auth.AuthenticateSucceedsIff | UBI_WEB_APP/app/auth.py:31-35 | with unique usernames, login succeeds exactly when some user has that username and `hash_password(password)` equals their stored hash |
| Auth.RecordLogin | UBI_WEB_APP/app/auth.py:53-55 | a successful login changes only that user's `last_login`, to `now` |
| Auth.RecordLoginKeepsValid | UBI_WEB_APP/app/auth.py:53-55 | recording a login keeps every constraint of the store |
| Auth.CreateUserRow | UBI_WEB_APP/app/auth.py:68-91 | `create_user` succeeds exactly when the username is new, the role string is one of the three values and the e-mail is new; the row it inserts has the next id, the digest of the password and the parsed role, and is active |
| Auth.CreateUserKeepsValid | UBI_WEB_APP/app/auth.py:76-87 | a user that `create_user` inserts keeps every constraint of the store |
| Auth.CreateUserTwice | UBI_WEB_APP/app/auth.py:70-71 | a second `create_user` with the same username fails, and exactly one user then has that username |
| Auth.CreatedUserCanLogIn | UBI_WEB_APP/app/auth.py:76-87 | a user created with a password can log in with that password: login finds exactly the new row |
| Routes.AdminRequired | UBI_WEB_APP/app/routes.py:36-42 | the admin guard admits a session exactly when its role string is the value of the administrator role |
| Routes.LecturerRequired | UBI_WEB_APP/app/routes.py:439-444 | the lecturer guard admits a session exactly when its role string is the value of the lecturer role, and no session passes both guards |
| Routes.Field | UBI_WEB_APP/app/routes.py:141 | `request.form.get(key, "").strip()` is the form's value with only white space cut off its two ends, so it never starts or ends with white space; it is blank exactly when the key is missing or its value is all white space |
| Routes.ReadUserForm | UBI_WEB_APP/app/routes.py:141-146 | the user form reads username, e-mail and names as the stripped form values, the password exactly as sent or blank when missing, and a missing role as "student" |
| Routes.MissingRoleMakesStudent | UBI_WEB_APP/app/routes.py:146 | a complete user form without a role field, with a new username and e-mail, creates a user with the student role |
| Routes.ReadCourseForm | UBI_WEB_APP/app/routes.py:210-214 | every field of the course form is the stripped form value |
| Routes.ReadGroupForm | UBI_WEB_APP/app/routes.py:300-304 | every field of the group form is the stripped form value |
| Routes.SessionAfterLogin | UBI_WEB_APP/app/routes.py:64-67 | a login stores the user's id, username and role string in the session |
| Routes.GuardsAfterLogin | UBI_WEB_APP/app/routes.py:36-42 | after login the admin guard admits exactly admins and the lecturer guard exactly lecturers; after logout neither admits the visitor |
| Routes.Dashboard | UBI_WEB_APP/app/routes.py:99-106 | a session without a user id, or with a falsy one, is redirected to login; otherwise the dashboard is always shown, with the user that has that id, or none when no user has it |
| Routes.DashboardAfterLogin | UBI_WEB_APP/app/routes.py:99-106 | right after login the dashboard shows the user who logged in, and after logout it redirects to login |
| Routes.CoursesTaughtBy | UBI_WEB_APP/app/routes.py:460-465 | the filter keeps every course whose `lecturer_id` is the given id, as many times as the table holds it, and no other course |
| Routes.GroupsTaughtBy | UBI_WEB_APP/app/routes.py:468-473 | the filter keeps every group whose `lecturer_id` is the given id, as many times as the table holds it, and no other group |
| Routes.LecturerCourses | UBI_WEB_APP/app/routes.py:439-473 | 403 exactly when the session role is not `"lecturer"`, then 404 exactly for a missing user id or user, and otherwise the lecturer's view with exactly the courses and groups the session's user teaches |
| Routes.DecideNewUser | UBI_WEB_APP/app/routes.py:140-162 | a blank username, e-mail, password, first or last name is refused with the "all fields required" error before `create_user`; otherwise the form is accepted exactly when `create_user` accepts it, with the same row |
| Routes.OptionalText | UBI_WEB_APP/app/routes.py:239 | `description or None` is absent exactly when the stripped description is blank, and is that description otherwise |
| Routes.DecideCourse | UBI_WEB_APP/app/routes.py:209-244 | a course is accepted exactly when code, name, ECTS and lecturer are filled in, ECTS is an integer, the code is new and the lecturer id names a LECTURER; the row has the next id and is active; a non-numeric lecturer id is a server error; every other refusal shows the form again with its error: fields required, ECTS not an integer, `Kurs o kodzie <code> już istnieje.` for a taken code, or not a lecturer |
| Routes.CourseInsertKeepsValid | UBI_WEB_APP/app/routes.py:235-243 | an accepted course keeps every constraint of the store |
| Routes.CourseCodeTwice | UBI_WEB_APP/app/routes.py:227-229 | once a course is inserted, every later form with the same code is refused |
| Routes.ParseOptionalInt | UBI_WEB_APP/app/routes.py:310-311 | a blank semester or year is absent; anything else must parse as an integer |
| Routes.DecideGroup | UBI_WEB_APP/app/routes.py:299-332 | a group is accepted exactly when name, course and lecturer are filled in, semester and year are blank or integers, the course exists and the lecturer id names a LECTURER; the row has the next id, the parsed semester and year, and is active; a non-numeric course or lecturer id is a server error; every other refusal shows the form again with its error: fields required, semester and year not numbers, course missing, or not a lecturer |
| Routes.GroupInsertKeepsValid | UBI_WEB_APP/app/routes.py:323-331 | an accepted group keeps every constraint of the store |
| Routes.DecideEnrollment | UBI_WEB_APP/app/routes.py:366-389 | an enrollment is accepted exactly when the student id is filled in and names a STUDENT without an active enrollment in the group; the row has the next id and is active; a non-numeric id is a server error; every other refusal shows the form again with its error: student required for a blank field, not a student, or already enrolled |
| Routes.EnrollmentInsertKeepsValid | UBI_WEB_APP/app/routes.py:377-389 | an accepted enrollment keeps every constraint of the store, including at most one active enrollment per (student, group) pair |
| Routes.EnrollTwiceRejected | UBI_WEB_APP/app/routes.py:377-383 | enrolling the same student in the same group again, while the first enrollment is active, is refused as "already enrolled" |
| Routes.Deactivate | UBI_WEB_APP/app/routes.py:427-431 | removing an enrollment keeps the row and sets only its `is_active` to false |
| Routes.DeactivateIdempotent | UBI_WEB_APP/app/routes.py:427-431 | removing an enrollment twice leaves the same table as removing it once |
| Routes.DeactivateKeepsValid | UBI_WEB_APP/app/routes.py:427-431 | removing an enrollment keeps every constraint of the store |
| Routes.ReenrollAfterRemove | UBI_WEB_APP/app/routes.py:377-389 | after an active enrollment is removed, enrolling the same student in the same group is accepted again |
| Routes.ToggleUser | UBI_WEB_APP/app/routes.py:186 | toggling flips only the target user's `is_active` |
| Routes.ToggleUserProperties | UBI_WEB_APP/app/routes.py:186 | toggling a user twice restores the table, and toggling keeps every constraint of the store |
| Routes.ToggleCourse | UBI_WEB_APP/app/routes.py:274-276 | toggling flips only the target course's `is_active` |
| Routes.ToggleCourseProperties | UBI_WEB_APP/app/routes.py:274-276 | toggling a course twice restores the table, and toggling keeps every constraint of the store |
| Setup.CreateEach | UBI_WEB_APP/app/__init__.py:49-57 | calling `create_user` for each entry, in list order, adds at most one row per entry |
| Setup.SeedEmptyStore | UBI_WEB_APP/config.py:36-61 | seeding an empty store creates `admin`, `prowadz1` and `student1`, in that order, with roles admin, lecturer and student, active and holding the digests of their passwords |
| Setup.SeededStudentLogin | UBI_WEB_APP/config.py:53-60 | after seeding, `student1` logs in with `pass123`, and the resulting session passes neither the admin nor the lecturer guard |
| Setup.SeededAdminLogin | UBI_WEB_APP/config.py:37-44 | after seeding, `admin` logs in with `admin123`, and the resulting session passes the admin guard |
| WebApp.App.constructor | UBI_WEB_APP/app/__init__.py:42 | a fresh database has four empty tables, which satisfy every constraint, and the visitor has an empty session |
| WebApp.App.AuthLogin | UBI_WEB_APP/app/auth.py:45-57 | an unknown user or a wrong password gives `(False, None)` and writes nothing; success returns the user found and changes only its `last_login` |
| WebApp.App.CreateUser | UBI_WEB_APP/app/auth.py:68-91 | returns True and appends exactly the row `create_user` builds when the username is new, the role valid and the e-mail new; otherwise returns False and leaves the table unchanged |
| WebApp.App.SeedTestUsers | UBI_WEB_APP/app/__init__.py:48-57 | on an empty users table, each `TEST_USERS` entry goes to `create_user` unchanged and in list order, leaving exactly admin, prowadz1 and student1; on a non-empty table nothing changes |
| WebApp.App.Login | UBI_WEB_APP/app/routes.py:57-74 | a successful POST stores id, username and role string in the session and redirects to the dashboard; a failed one, for an unknown user or a wrong password alike, shows the one generic error and leaves the session unchanged |
| WebApp.App.Logout | UBI_WEB_APP/app/routes.py:84-85 | logout empties the session and redirects to login |
| WebApp.App.AddUser | UBI_WEB_APP/app/routes.py:148-162 | with a blank required field the users table is unchanged; otherwise exactly the user `create_user` accepts is appended |
| WebApp.App.AdminUsers | UBI_WEB_APP/app/routes.py:140-162 | 403 with nothing changed unless the session role is `"admin"`; a POST appends exactly the accepted user, or leaves the table unchanged |
| WebApp.App.AdminToggleUser | UBI_WEB_APP/app/routes.py:180-187 | 403 for non-admins and 404 for an unknown id, each with nothing changed; targeting the admin's own id changes nothing; any other user has only its `is_active` flipped |
| WebApp.App.AddCourse | UBI_WEB_APP/app/routes.py:216-244 | appends exactly the course `DecideCourse` accepts, or leaves the courses table unchanged |
| WebApp.App.AdminCourses | UBI_WEB_APP/app/routes.py:209-244 | 403 with nothing changed unless admin; a POST appends exactly the accepted course, or leaves the table unchanged |
| WebApp.App.AdminToggleCourse | UBI_WEB_APP/app/routes.py:273-278 | 403 for non-admins and 404 for an unknown id, each with nothing changed; otherwise only that course's `is_active` flips |
| WebApp.App.AddGroup | UBI_WEB_APP/app/routes.py:306-332 | appends exactly the group `DecideGroup` accepts, or leaves the groups table unchanged |
| WebApp.App.AdminGroups | UBI_WEB_APP/app/routes.py:299-332 | 403 with nothing changed unless admin; a POST appends exactly the accepted group, or leaves the table unchanged |
| WebApp.App.AddStudentToGroup | UBI_WEB_APP/app/routes.py:366-389 | appends exactly the enrollment `DecideEnrollment` accepts, or leaves the enrollments table unchanged |
| WebApp.App.AdminGroupStudents | UBI_WEB_APP/app/routes.py:361-389 | 403 for non-admins and 404 for an unknown group, each with nothing changed; a POST appends exactly the accepted enrollment, or leaves the table unchanged |
| WebApp.App.AdminRemoveEnrollment | UBI_WEB_APP/app/routes.py:427-433 | 403 for non-admins and 404 for an unknown id, each with nothing changed; otherwise only that enrollment becomes inactive, the row stays, and the outcome redirects to its group's page |

## Left out

- Template rendering, `redirect`/`url_for` and HTTP status codes: the outcome datatype only names the page, the redirect target, 403, 404 or a server error. GET pages are `Rendered(None, None)`, without the lists they display.
- The ordering of `order_by` in the lists handlers display (`app/routes.py:165`, 249, 252, 336-342, 392-405, 460-473). The lists themselves are not modelled, apart from `lecturer_courses`, whose filtered lists are stated as multisets: which rows they hold and how often, not in which order.
- `admin_panel` (`app/routes.py:108-119`): it only renders the admin's own user record behind the admin guard, and changes nothing.
- SQLAlchemy and transactions: a failed commit followed by a rollback is modelled as "the table is unchanged". The only commit failure modelled is the unique `email` column in `create_user`.
- Column length limits (`String(50)` and others): SQLite does not enforce them, and no handler checks them.
- `created_at` timestamps, `Lesson` and `Grade` (no handler of the core reads or writes them), `run.py`, blueprint registration, `SECRET_KEY` and the database URI in `config.py`.
- Signing of the session cookie: the session is the record of the three keys it holds.
- SHA-256 itself: `hash` is an arbitrary function, so the proofs hold for any digest function.
- Text.ParseInt: does not accept Unicode decimal digits other than ASCII `0`-`9`, which Python's `int()` also accepts, and has no limit on the number of digits, while CPython 3.11 and later raise `ValueError` for more than 4300 digits (that ECTS, semester or year is then refused as "not a number").
- Routes.DecideCourse: SQLite's 64-bit `INTEGER` range is not modelled. A lecturer id outside -2^63..2^63-1 makes `User.query.get` raise `OverflowError`, and an ECTS value outside it fails the commit; both are a server error in the program, while the model says "not a lecturer" or inserts the course.
- Routes.DecideGroup: SQLite's 64-bit `INTEGER` range is not modelled. A course or lecturer id outside -2^63..2^63-1 makes `query.get` raise `OverflowError`, and a semester or year outside it fails the commit; both are a server error in the program, while the model says "course missing" or "not a lecturer", or inserts the group.
- Routes.DecideEnrollment: SQLite's 64-bit `INTEGER` range is not modelled. A student id outside -2^63..2^63-1 makes `User.query.get` raise `OverflowError`, a server error in the program, while the model says "not a student".
- WebApp.App.AdminToggleUser: an id of 2^63 or more in the URL (Flask's `int` converter has no upper bound) makes `query.get` raise `OverflowError`, a server error in the program; the model answers 404.
- WebApp.App.AdminToggleCourse: an id of 2^63 or more is a server error in the program and 404 in the model.
- WebApp.App.AdminGroupStudents: a group id of 2^63 or more is a server error in the program and 404 in the model.
- WebApp.App.AdminRemoveEnrollment: an enrollment id of 2^63 or more is a server error in the program and 404 in the model.
- The column default `role=UserRole.STUDENT` (`app/models.py:37`): every insertion goes through `create_user`, which always passes a role, so the default is never used.
- Concurrency between requests: each handler runs alone, one after another.
- `Setup.CreateEach`: its contract bounds only the size of the table; the rows the seed creates are stated by `Setup.SeedEmptyStore`.
