/** The REST handlers of server/server.js over an in-memory copy of the
    User and Course collections. Each handler reads, checks, updates the
    documents it found and commits (`save`) by assigning the field. */
module Store {
  import opened Wrappers
  import opened Seqs
  import opened Http
  import opened Auth
  import opened Courses

  /** What a listing endpoint answers: the documents, or an error response. */
  datatype Listing = Listed(courses: seq<Course>) | ListError(response: Response)

  class CourseStore {
    var users: seq<User>
    var courses: seq<Course>
    /** The next `_id` the store hands out. */
    var nextDocId: nat

    /** What the database itself enforces: its unique indexes. */
    ghost predicate Valid()
      reads this
    {
      UniqueUsernames(users) && UniqueCodes(courses) && DocIdsFresh(courses, nextDocId)
    }

    /** No course lists a student twice. */
    ghost predicate EnrollmentsDistinct()
      reads this
    {
      AllEnrollmentsDistinct(courses)
    }

    /** Opens a store over documents that already exist. */
    constructor Load(users0: seq<User>, courses0: seq<Course>, nextDocId0: nat)
      requires UniqueUsernames(users0) && UniqueCodes(courses0) && DocIdsFresh(courses0, nextDocId0)
      ensures Valid()
      ensures users == users0 && courses == courses0 && nextDocId == nextDocId0
    {
      users, courses, nextDocId := users0, courses0, nextDocId0;
    }

    /** `/api/signup` (lines 137-184): refuse a taken username, otherwise
        add the user. */
    method Signup(username: string, name: string, role: string) returns (r: Response)
      requires Valid()
      modifies this
      ensures Valid() && courses == old(courses) && nextDocId == old(nextDocId)
      ensures HasUser(old(users), Username, username) ==> r == UserExists && users == old(users)
      ensures !HasUser(old(users), Username, username) ==>
        r == UserCreated && users == old(users) + [User(username, name, role)]
    {
      if HasUser(users, Username, username) {
        return UserExists;
      }
      users := users + [User(username, name, role)];
      r := UserCreated;
    }

    /** `/api/add-course` (lines 242-265): the instructor must be some user's
        name; a course code already in use makes `save` violate the unique
        index, which the handler answers with 500. */
    method AddCourse(courseName: string, courseCode: string, courseInstructor: string, courseCapacity: real)
      returns (r: Response)
      requires Valid()
      modifies this
      ensures Valid() && users == old(users)
      ensures old(EnrollmentsDistinct()) ==> EnrollmentsDistinct()
      ensures !HasUser(old(users), DisplayName, courseInstructor) ==>
        r == InstructorMissing && courses == old(courses) && nextDocId == old(nextDocId)
      ensures HasUser(old(users), DisplayName, courseInstructor) && FindByCode(old(courses), courseCode).Some? ==>
        r == ServerError && courses == old(courses) && nextDocId == old(nextDocId)
      ensures HasUser(old(users), DisplayName, courseInstructor) && FindByCode(old(courses), courseCode).None? ==>
        r == CourseCreated && nextDocId == old(nextDocId) + 1 &&
        courses == old(courses) + [Course(old(nextDocId), courseCode, courseName, courseInstructor,
                                          courseCapacity, Some([]), [])]
    {
      if !HasUser(users, DisplayName, courseInstructor) {
        return InstructorMissing;
      }
      if FindByCode(courses, courseCode).Some? {
        return ServerError;
      }
      courses := courses + [Course(nextDocId, courseCode, courseName, courseInstructor, courseCapacity, Some([]), [])];
      nextDocId := nextDocId + 1;
      r := CourseCreated;
    }

    /** `/api/delete-course/:courseId` (lines 268-283). */
    method DeleteCourse(docId: nat) returns (r: Response)
      requires Valid()
      modifies this
      ensures Valid() && users == old(users) && nextDocId == old(nextDocId)
      ensures old(EnrollmentsDistinct()) ==> EnrollmentsDistinct()
      ensures FindByDocId(old(courses), docId).None? ==> r == CourseNotFound && courses == old(courses)
      ensures FindByDocId(old(courses), docId).Some? ==>
        r == CourseDeleted && courses == RemoveAt(old(courses), FindByDocId(old(courses), docId).value)
      ensures forall k :: 0 <= k < |courses| ==> courses[k].docId != docId
    {
      var found := FindByDocId(courses, docId);
      if found.None? {
        return CourseNotFound;
      }
      var i := found.value;
      ghost var before := courses;
      courses := RemoveAt(courses, i);
      forall k | 0 <= k < |courses| ensures courses[k].docId != docId {
        var k' := if k < i then k else k + 1;
        assert courses[k] == before[k'] && k' != i;
      }
      r := CourseDeleted;
    }

    /** `/api/remove-student/:courseId/:studentId` (lines 285-313). `same(e, s)`
        stands for the comparison `indexOf` makes between the entry `e` and
        the ObjectId built from `s`. The first matching entry is spliced out. */
    method RemoveStudent(docId: nat, studentId: string, same: (string, string) -> bool) returns (r: Response)
      requires Valid()
      modifies this
      ensures Valid() && users == old(users) && nextDocId == old(nextDocId)
      ensures old(EnrollmentsDistinct()) ==> EnrollmentsDistinct()
      ensures FindByDocId(old(courses), docId).None? ==> r == CourseNotFound && courses == old(courses)
      ensures FindByDocId(old(courses), docId).Some? ==>
        var i := FindByDocId(old(courses), docId).value;
        var c := old(courses)[i];
        match c.studentsEnrolled
        case None => r == ServerError && courses == old(courses)
        case Some(list) =>
          match FirstMatch(list, (e: string) => same(e, studentId))
          case None => r == StudentNotInCourse && courses == old(courses)
          case Some(k) =>
            r == StudentRemoved &&
            courses == old(courses)[i := c.(studentsEnrolled := Some(RemoveAt(list, k)))]
    {
      var found := FindByDocId(courses, docId);
      if found.None? {
        return CourseNotFound;
      }
      var i := found.value;
      var c := courses[i];
      if c.studentsEnrolled.None? {
        return ServerError;
      }
      var list := c.studentsEnrolled.value;
      var index := FirstMatch(list, (e: string) => same(e, studentId));
      if index.None? {
        return StudentNotInCourse;
      }
      if EnrollmentDistinct(c) {
        RemoveAtDistinct(list, index.value);
      }
      courses := courses[i := c.(studentsEnrolled := Some(RemoveAt(list, index.value)))];
      r := StudentRemoved;
    }

    /** `/api/enroll-student` (lines 315-345): the admin path. A missing course
        is reported before a missing student; an absent list counts as empty;
        there is no capacity check. */
    method EnrollStudent(courseCode: string, studentId: string) returns (r: Response)
      requires Valid()
      modifies this
      ensures Valid() && users == old(users) && nextDocId == old(nextDocId)
      ensures old(EnrollmentsDistinct()) ==> EnrollmentsDistinct()
      ensures FindByCode(old(courses), courseCode).None? ==> r == CourseNotFound && courses == old(courses)
      ensures FindByCode(old(courses), courseCode).Some? ==>
        var i := FindByCode(old(courses), courseCode).value;
        var c := old(courses)[i];
        if !HasUser(old(users), Username, studentId) then r == StudentNotFound && courses == old(courses)
        else if IsEnrolled(c, studentId) then r == StudentAlreadyEnrolled && courses == old(courses)
        else r == StudentEnrolled && courses == old(courses)[i := Push(c, studentId)]
    {
      var found := FindByCode(courses, courseCode);
      var student := HasUser(users, Username, studentId);
      if found.None? {
        return CourseNotFound;
      }
      if !student {
        return StudentNotFound;
      }
      var i := found.value;
      var c := courses[i];
      if IsEnrolled(c, studentId) {
        return StudentAlreadyEnrolled;
      }
      courses := courses[i := Push(c, studentId)];
      r := StudentEnrolled;
    }

    /** `/api/student-enrollment` (lines 360-385): self-enrollment behind the
        token check. `caller` is the identity the handler enrolls. "Already
        enrolled" is checked before "full". */
    method StudentEnrollment(header: Option<string>, verify: string -> Option<Claims>,
                             courseCode: string, caller: string) returns (r: Response)
      requires Valid()
      modifies this
      ensures Valid() && users == old(users) && nextDocId == old(nextDocId)
      ensures |courses| == |old(courses)|
      ensures old(EnrollmentsDistinct()) ==> EnrollmentsDistinct()
      ensures forall k :: 0 <= k < |courses| && BelowCapacityPlusOne(old(courses)[k]) ==> BelowCapacityPlusOne(courses[k])
      ensures forall k :: 0 <= k < |courses| && WholeCapacity(old(courses)[k]) && WithinCapacity(old(courses)[k]) ==>
        WithinCapacity(courses[k])
      ensures Authenticate(header, verify).Rejected? ==>
        r == Authenticate(header, verify).response && courses == old(courses)
      ensures Authenticate(header, verify).Authenticated? && FindByCode(old(courses), courseCode).None? ==>
        r == CourseNotFound && courses == old(courses)
      ensures Authenticate(header, verify).Authenticated? && FindByCode(old(courses), courseCode).Some? ==>
        var i := FindByCode(old(courses), courseCode).value;
        var c := old(courses)[i];
        if c.studentsEnrolled.None? then r == ServerError && courses == old(courses)
        else if caller in c.studentsEnrolled.value then r == AlreadyEnrolled && courses == old(courses)
        else if EnrolledCount(c) as real >= c.capacity then r == CourseFull && courses == old(courses)
        else r == SelfEnrolled && courses == old(courses)[i := Push(c, caller)]
    {
      var auth := Authenticate(header, verify);
      if auth.Rejected? {
        return auth.response;
      }
      var found := FindByCode(courses, courseCode);
      if found.None? {
        return CourseNotFound;
      }
      var i := found.value;
      var c := courses[i];
      if c.studentsEnrolled.None? {
        return ServerError;
      }
      if caller in c.studentsEnrolled.value {
        return AlreadyEnrolled;
      }
      if |c.studentsEnrolled.value| as real >= c.capacity {
        return CourseFull;
      }
      PushUnderCapacity(c, caller);
      ghost var before := courses;
      courses := courses[i := Push(c, caller)];
      assert forall k :: 0 <= k < |courses| && k != i ==> courses[k] == before[k];
      r := SelfEnrolled;
    }

    /** `/api/student-courses` (lines 387-403), behind the token check. */
    method ListStudentCourses(header: Option<string>, verify: string -> Option<Claims>, caller: string)
      returns (r: Listing)
      ensures Authenticate(header, verify).Rejected? ==> r == ListError(Authenticate(header, verify).response)
      ensures Authenticate(header, verify).Authenticated? ==>
        (r == ListError(ServerError) <==> exists k :: 0 <= k < |courses| && courses[k].studentsEnrolled.None?)
      ensures Authenticate(header, verify).Authenticated? && StudentCourses(courses, caller).Some? ==>
        r == Listed(StudentCourses(courses, caller).value)
      ensures r.Listed? ==>
        Authenticate(header, verify).Authenticated? &&
        (forall k :: 0 <= k < |r.courses| ==> r.courses[k] in courses && IsEnrolled(r.courses[k], caller)) &&
        (forall k :: 0 <= k < |courses| && IsEnrolled(courses[k], caller) ==> courses[k] in r.courses)
    {
      var auth := Authenticate(header, verify);
      if auth.Rejected? {
        return ListError(auth.response);
      }
      match StudentCourses(courses, caller)
      case None => r := ListError(ServerError);
      case Some(list) => r := Listed(list);
    }

    /** `/api/instructor-courses` (lines 428-452), behind the token check: the
        name comes from the verified token's claims. */
    method ListInstructorCourses(header: Option<string>, verify: string -> Option<Claims>)
      returns (r: Listing)
      ensures Authenticate(header, verify).Rejected? ==> r == ListError(Authenticate(header, verify).response)
      ensures Authenticate(header, verify).Authenticated? ==>
        r == Listed(InstructorCourses(courses, Authenticate(header, verify).claims.name))
      ensures r.Listed? ==>
        var name := Authenticate(header, verify).claims.name;
        Authenticate(header, verify).Authenticated? &&
        (forall k :: 0 <= k < |r.courses| ==> r.courses[k] in courses && r.courses[k].instructor == name) &&
        (forall k :: 0 <= k < |courses| && courses[k].instructor == name ==> courses[k] in r.courses)
    {
      var auth := Authenticate(header, verify);
      if auth.Rejected? {
        return ListError(auth.response);
      }
      r := Listed(InstructorCourses(courses, auth.claims.name));
    }

    /** `/api/add-feedback` (lines 454-479), behind the token check: only an
        enrolled caller may append feedback. */
    method AddFeedback(header: Option<string>, verify: string -> Option<Claims>,
                       courseCode: string, content: string, caller: string) returns (r: Response)
      requires Valid()
      modifies this
      ensures Valid() && users == old(users) && nextDocId == old(nextDocId)
      ensures |courses| == |old(courses)|
      ensures forall k :: 0 <= k < |courses| ==> courses[k].studentsEnrolled == old(courses)[k].studentsEnrolled
      ensures Authenticate(header, verify).Rejected? ==>
        r == Authenticate(header, verify).response && courses == old(courses)
      ensures Authenticate(header, verify).Authenticated? && FindByCode(old(courses), courseCode).None? ==>
        r == CourseNotFound && courses == old(courses)
      ensures Authenticate(header, verify).Authenticated? && FindByCode(old(courses), courseCode).Some? ==>
        var i := FindByCode(old(courses), courseCode).value;
        var c := old(courses)[i];
        if c.studentsEnrolled.None? then r == ServerError && courses == old(courses)
        else if !IsEnrolled(c, caller) then r == NotEnrolled && courses == old(courses)
        else r == FeedbackAdded && courses == old(courses)[i := c.(feedback := c.feedback + [content])]
    {
      var auth := Authenticate(header, verify);
      if auth.Rejected? {
        return auth.response;
      }
      var found := FindByCode(courses, courseCode);
      if found.None? {
        return CourseNotFound;
      }
      var i := found.value;
      var c := courses[i];
      if c.studentsEnrolled.None? {
        return ServerError;
      }
      if !IsEnrolled(c, caller) {
        return NotEnrolled;
      }
      courses := courses[i := c.(feedback := c.feedback + [content])];
      r := FeedbackAdded;
    }
  }
}
