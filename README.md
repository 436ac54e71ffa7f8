# Zambool course enrollment: a Dafny model

Zambool is a course-enrollment web application. Students enroll in courses and leave feedback. Instructors list the courses they teach. Admins add and delete courses and enroll or remove students. This project models two parts of it:

- the rules the REST API (`server/server.js`) enforces on the User and Course collections, with the bearer-token check in front of the protected endpoints;
- the checks the signup form (`client/src/components/login.js`) runs before it sends a signup request.

Layout:

- `wrappers.dfy`: `Option`, used for absent fields and empty query results.
- `http.dfy`: every status code and `message` text the handlers answer with.
- `seqs.dfy`: the sequence operations the handlers use, each with its contract. These are first-match scans (`findOne`, `findById`, `indexOf`), `splice` and `filter`.
- `auth.dfy`: the `Authorization` header parse (`split(" ")[1]`) and the `authenticateToken` middleware. `jwt.verify` is a function parameter `verify` that yields the token's claims or nothing.
- `courses.dfy`: the User and Course documents, the queries over them, and the listing selections of student-courses and instructor-courses.
- `store.dfy`: a class `CourseStore` with one method per handler. The collections are `seq` fields, and each method updates the fields in place. `save` is the assignment that commits the change. `Valid()` holds the database's unique indexes: username, course code, and `_id`. `EnrollmentsDistinct()` says that no course lists a student twice. It is not an index; every handler preserves it.
- `signup_form.dfy`: the signup form's chain of checks, and whether the request is sent.

The protected handlers take the raw header and `verify` as parameters. They run only when `Authenticate` yields claims; otherwise they answer with its 401 or 403 and change nothing. The identity a self-enrolling or feedback-giving student acts as is a separate parameter `caller`. The reason is that the signed token carries only `userId` and `name` (server/server.js:202-203), while those handlers read `req.user.username`. Instructor-courses uses the token's `name`, as the source does.

Where a handler calls `includes` or `indexOf` on `studentsEnrolled` without testing that the list exists, an absent list makes the call throw. The `catch` then answers 500 "Server error", and the model gives that answer. Only admin enrollment turns an absent list into an empty one (server/server.js:329-331).

`studentsEnrolled` may be absent in the model on purpose, as an over-approximation. Both array fields of a Course (server/server.js:58, 60) get an empty default from Mongoose when a document is loaded, so a loaded document never lacks either one. But the admin handler tests `studentsEnrolled` for `undefined`, so the model lets it be absent and gives every handler a defined answer in that state. The 500 branches for a missing list therefore cover a state that documents loaded through Mongoose do not reach. No handler tests `feedback` for absence, so `feedback` is always present in the model, as the schema default makes it.

Where the code differs from a plain reading of the header rule: an empty `Authorization` header is falsy. `authHeader && ...` therefore yields the empty string itself, which is not `null`. So the empty header is not refused with 401; its token `""` goes to `verify`. `ExtractToken` follows the code.

## Model

| member | source | states |
|---|---|---|
| Seqs.FirstMatch | server/server.js:295-299 | the result is the index of the first element satisfying the predicate, and nothing earlier satisfies it; no result exactly when no element satisfies it |
| Seqs.RemoveAt | server/server.js:305 | splice(i, 1): one shorter, entries before i unchanged, entries after i shifted down by one keeping their order, and the multiset loses exactly the removed entry |
| Seqs.Filter | server/server.js:394-396 | every kept element is in the input and satisfies the predicate, and every input element satisfying it is kept |
| Seqs.FilterAppend | server/server.js:394-396 | filtering a concatenation is the concatenation of the filtered parts, so the kept elements stay in input order |
| Seqs.AppendAbsentDistinct | server/server.js:332-336 | appending an id that is absent from a duplicate-free list keeps the list duplicate-free |
| Seqs.RemoveAtDistinct | server/server.js:305 | removing an entry from a duplicate-free list keeps the list duplicate-free, and the removed id no longer occurs |
| Auth.Split | server/server.js:110 | split(" ") has one more field than there are separators, and no field contains the separator |
| Auth.JoinSplit | server/server.js:110 | joining the fields of a split with the separator gives back the original string |
| Auth.SplitJoin | server/server.js:110 | splitting the join of separator-free fields gives back the fields |
| Auth.ExtractToken | server/server.js:109-110 | no token exactly when the header is missing, or is non-empty with no space; the empty header is its own token; a token never contains a space |
| Auth.SecondField | server/server.js:110 | a header "scheme token", optionally followed by more space-separated text, yields exactly token |
| Auth.Authenticate | server/server.js:108-123 | 401 "No token provided" exactly when no token can be extracted; 403 "Invalid or expired token" exactly when the verifier rejects the token; otherwise the verifier's claims |
| Auth.NoSecondFieldRejected | server/server.js:109-114 | a missing header, or one without a second field, is refused with 401 whatever the verifier says |
| Courses.FindByCode | server/server.js:318 | findOne by course code yields the first course in store order with that code, and nothing exactly when no course has it |
| Courses.FindByDocId | server/server.js:272 | findById yields the course with that _id, and nothing exactly when no course has it |
| Courses.HasUser | server/server.js:141 | findOne on a user field finds a document exactly when some user's selected field has that value; the same lookup serves the username at lines 141 and 319 and the instructor name at line 246 |
| Courses.Push | server/server.js:329-336 | appending a not-yet-enrolled id puts it at the end of the list (an absent list counts as empty), raises the count by one, keeps the list duplicate-free and changes nothing else in the course |
| Courses.PushUnderCapacity | server/server.js:373-377 | a push that passed the guard length >= capacity leaves fewer entries than capacity plus one, and no more than the capacity when the capacity is whole |
| Courses.FractionalCapacityOverfills | server/server.js:373-377 | with capacity 2.5 and two students, the guard lets a third student in, which puts the list over capacity |
| Courses.StudentCourses | server/server.js:394-396 | fails exactly when some course lacks its list; otherwise yields exactly the courses whose list contains the identity |
| Courses.StudentCoursesAppend | server/server.js:394-396 | the listing of a concatenated store is the concatenation of the listings, so it keeps store order |
| Courses.InstructorCourses | server/server.js:430 | exactly the courses whose instructor is the given name |
| Courses.InstructorCoursesAppend | server/server.js:430 | the instructor listing keeps store order |
| Store.CourseStore.Load | server/server.js:28-64 | a store over existing documents that satisfy the unique indexes on username, course code and _id |
| Store.CourseStore.Signup | server/server.js:139-179 | a taken username gives 401 "User already exists" and no change; otherwise the user is appended with 201, and usernames stay unique |
| Store.CourseStore.AddCourse | server/server.js:244-260 | an instructor name that no user has gives 400 and no change; a course code already in use gives 500 and no change; otherwise one course is appended with a fresh _id, an empty student list and no feedback, with 201 |
| Store.CourseStore.DeleteCourse | server/server.js:270-278 | an unknown _id gives 404 and no change; otherwise exactly that course is removed, the others keep their order, and no course with that _id remains |
| Store.CourseStore.RemoveStudent | server/server.js:287-308 | unknown course gives 404; an absent list gives 500; no matching entry gives 404 and no change; otherwise exactly the first matching entry is removed, the others keep their order, and no other course changes |
| Store.CourseStore.EnrollStudent | server/server.js:317-340 | a missing course is reported before a missing student; an already enrolled id leaves the store unchanged; otherwise the id is appended with no capacity check; lists stay duplicate-free |
| Store.CourseStore.StudentEnrollment | server/server.js:360-380 | without authentication nothing changes; a missing course gives 404; an enrolled caller gets "already enrolled" before a full course gets "Course is full", and both leave the store unchanged; otherwise the caller is appended; every course stays below capacity plus one, stays within capacity when its capacity is whole, and keeps a duplicate-free list |
| Store.CourseStore.ListStudentCourses | server/server.js:387-398 | without authentication, the auth error; 500 exactly when some course lacks its list; otherwise exactly the student-courses listing, which holds the courses listing the caller, in store order |
| Store.CourseStore.ListInstructorCourses | server/server.js:428-447 | without authentication, the auth error; otherwise exactly the instructor listing for the name in the token's claims, in store order |
| Store.CourseStore.AddFeedback | server/server.js:456-474 | without authentication nothing changes; missing course gives 404; a caller who is not enrolled gets 403 and no change; otherwise the content is appended at the end of that course's feedback; no student list changes |
| SignupForm.HasDigit | client/src/components/login.js:68 | the scan of /\d/ succeeds exactly when some position of the password holds an ASCII digit 0-9 |
| SignupForm.HasSpecialChar | client/src/components/login.js:73 | the scan of /[!@#$%^&*.]/ succeeds exactly when some position holds one of ! @ # $ % ^ & * . |
| SignupForm.AlertText | client/src/components/login.js:54-74 | each check has its own alert text, and the text identifies the check that failed |
| SignupForm.Validate | client/src/components/login.js:53-76 | passes exactly when no check fails; otherwise it reports a failing check, and every earlier check passes |
| SignupForm.HandleSignupSubmit | client/src/components/login.js:53-84 | the signup request is sent, carrying the form's fields, exactly when the name is non-empty, the passwords match, and the password has at least 8 characters, a digit and one of ! @ # $ % ^ & * .; otherwise the first failing check's message is alerted |
| SignupForm.EmptyNameFirst | client/src/components/login.js:53-56 | an empty name is reported first, whatever the password |
| SignupForm.FirstFailingDecides | client/src/components/login.js:53-76 | a failing check whose predecessors all pass is the one reported |

## Left out

- Express setup, CORS and JSON middleware, configuration, the database connection and `listen` (server/server.js:8-24): process startup and I/O.
- Mongoose schema validation beyond the unique indexes. This covers `required` fields, the role `enum`, and a failing `Number` cast of the capacity. The capacity is a `real`, so fractional values are in the model, but NaN and infinities are not.
- Store.CourseStore.StudentEnrollment: the guard at server/server.js:373 keeps a course within its capacity only when the capacity is a whole number. A fractional capacity admits one entry too many (see Courses.FractionalCapacityOverfills). For an arbitrary capacity the model promises only fewer entries than the capacity plus one.
- Logging: the `console.log` and `console.error` calls in the handlers (for example server/server.js:247, 249, 262, 342) produce no response and change no state.
- ObjectId casting: `findById` and `mongoose.Types.ObjectId(studentId)` can throw on a malformed id, which gives 500. The model takes `_id`s as naturals and does not raise this error.
- Store.CourseStore.RemoveStudent: the comparison between an entry and the ObjectId built from the request's id is the parameter `same`. Its real outcome depends on how Mongoose arrays compare an ObjectId with a string. The contract holds for any such comparison.
- `populate` of feedback (server/server.js:414, 437-439): the feedback entries are plain strings, so it is taken as the identity.
- bcrypt hashing and comparison, and JWT signing and verification (server/server.js:146-147, 197, 202-208, 116): library calls. `verify` is a parameter, and the password is not stored.
- The login handler (server/server.js:187-225) and the client's login branch (client/src/components/login.js:10-37): network and localStorage.
- The Student, Instructor and Admin profile documents created at signup (server/server.js:157-177): no modelled rule reads them.
- The `/home` and `/enrollment` render routes, course-list, student-list and search-course (server/server.js:126-134, 228-239, 347-358, 405-426): plain reads with no rules.
- The unreachable `if (!courses)` branches after `find()`, which always returns an array.
- Concurrency: the read-check-push-save sequences are not atomic in the source. Each handler is modelled as one sequential step.
- Store.CourseStore.StudentEnrollment, Store.CourseStore.AddFeedback, Store.CourseStore.ListStudentCourses: `caller` is an explicit parameter. In the source it is `req.user.username`, which the token never carries, so in practice it is `undefined`.
- SignupForm.Validate: `password.length` counts UTF-16 code units in JavaScript; the model counts characters, which differs only outside the Basic Multilingual Plane.
- The React components, routing and localStorage handling outside the signup checks: UI.
