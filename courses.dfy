/** The documents the handlers read and write (server/server.js:28-64) and
    the queries they run over them. */
module Courses {
  import opened Wrappers
  import opened Seqs

  /** A User document; the password hash is left out. */
  datatype User = User(username: string, name: string, role: string)

  /** A Course document. `docId` is the store's `_id`, `courseId` the course
      code, `capacity` the JavaScript number the schema's `Number` cast keeps
      (it need not be whole). `studentsEnrolled` holds usernames and may be
      absent (`None`); `feedback` holds the comment texts. */
  datatype Course = Course(
    docId: nat,
    courseId: string,
    name: string,
    instructor: string,
    capacity: real,
    studentsEnrolled: Option<seq<string>>,
    feedback: seq<string>)

  /** `Course.findOne({ courseId: code })`: the first course, in store
      order, with that code. */
  function FindByCode(cs: seq<Course>, code: string): (r: Option<nat>)
    ensures r.Some? ==> r.value < |cs| && cs[r.value].courseId == code
    ensures r.Some? ==> forall j :: 0 <= j < r.value ==> cs[j].courseId != code
    ensures r.None? <==> forall j :: 0 <= j < |cs| ==> cs[j].courseId != code
  {
    FirstMatch(cs, (c: Course) => c.courseId == code)
  }

  /** `Course.findById(id)`: the first course with that `_id`. */
  function FindByDocId(cs: seq<Course>, id: nat): (r: Option<nat>)
    ensures r.Some? ==> r.value < |cs| && cs[r.value].docId == id
    ensures r.Some? ==> forall j :: 0 <= j < r.value ==> cs[j].docId != id
    ensures r.None? <==> forall j :: 0 <= j < |cs| ==> cs[j].docId != id
  {
    FirstMatch(cs, (c: Course) => c.docId == id)
  }

  function Username(u: User): string { u.username }

  function DisplayName(u: User): string { u.name }

  /** `User.findOne({ <field>: value })` finds a document, for the field that
      `field` selects: `Username` at signup and admin enrollment, `DisplayName`
      when a course names its instructor. */
  predicate HasUser(us: seq<User>, field: User -> string, value: string)
    ensures HasUser(us, field, value) <==> exists i :: 0 <= i < |us| && field(us[i]) == value
  {
    FirstMatch(us, (u: User) => field(u) == value).Some?
  }

  /** `c.studentsEnrolled.includes(who)`, on a list that is present. */
  predicate IsEnrolled(c: Course, who: string) {
    c.studentsEnrolled.Some? && who in c.studentsEnrolled.value
  }

  /** Number of enrolled entries; an absent list counts as empty. */
  function EnrolledCount(c: Course): nat {
    |c.studentsEnrolled.GetOr([])|
  }

  predicate WithinCapacity(c: Course) {
    EnrolledCount(c) as real <= c.capacity
  }

  /** What the guard `length >= capacity` keeps for any capacity: fewer
      entries than the capacity plus one. */
  predicate BelowCapacityPlusOne(c: Course) {
    (EnrolledCount(c) as real) < c.capacity + 1.0
  }

  /** The capacity is a whole number. */
  predicate WholeCapacity(c: Course) {
    c.capacity == c.capacity.Floor as real
  }

  /** The enrolled list, if present, holds no entry twice. */
  predicate EnrollmentDistinct(c: Course) {
    c.studentsEnrolled.Some? ==> Distinct(c.studentsEnrolled.value)
  }

  predicate AllEnrollmentsDistinct(cs: seq<Course>) {
    forall i :: 0 <= i < |cs| ==> EnrollmentDistinct(cs[i])
  }

  /** The unique index on `username` (line 30). */
  predicate UniqueUsernames(us: seq<User>) {
    forall i, j :: 0 <= i < j < |us| ==> us[i].username != us[j].username
  }

  /** The unique index on `courseId` (line 55). */
  predicate UniqueCodes(cs: seq<Course>) {
    forall i, j :: 0 <= i < j < |cs| ==> cs[i].courseId != cs[j].courseId
  }

  /** `_id`s are unique and all below the next one to hand out. */
  predicate DocIdsFresh(cs: seq<Course>, next: nat) {
    (forall i :: 0 <= i < |cs| ==> cs[i].docId < next) &&
    (forall i, j :: 0 <= i < j < |cs| ==> cs[i].docId != cs[j].docId)
  }

  /** `studentsEnrolled.push(who)` after the source's guards; an absent list
      is first replaced by the empty one. */
  function Push(c: Course, who: string): (c': Course)
    requires !IsEnrolled(c, who)
    ensures c'.studentsEnrolled == Some(c.studentsEnrolled.GetOr([]) + [who])
    ensures EnrolledCount(c') == EnrolledCount(c) + 1
    ensures EnrollmentDistinct(c) ==> EnrollmentDistinct(c')
    ensures c' == c.(studentsEnrolled := c'.studentsEnrolled)
  {
    var list := c.studentsEnrolled.GetOr([]);
    assert Distinct(list) ==> Distinct(list + [who]) by {
      if Distinct(list) { AppendAbsentDistinct(list, who); }
    }
    c.(studentsEnrolled := Some(list + [who]))
  }

  /** A push behind the guard `length >= capacity` stays below capacity plus
      one, and within capacity when the capacity is whole. */
  lemma PushUnderCapacity(c: Course, who: string)
    requires !IsEnrolled(c, who) && (EnrolledCount(c) as real) < c.capacity
    ensures BelowCapacityPlusOne(Push(c, who))
    ensures WholeCapacity(c) ==> WithinCapacity(Push(c, who))
  {
    var n := EnrolledCount(c);
    assert EnrolledCount(Push(c, who)) == n + 1;
    assert Push(c, who).capacity == c.capacity;
    if WholeCapacity(c) {
      var k := c.capacity.Floor;
      assert n < k;
    }
  }

  /** With a fractional capacity the guard `length >= capacity` admits one
      entry too many: a course of capacity 2.5 holding two students passes
      the guard, and the push leaves three, over capacity. */
  lemma FractionalCapacityOverfills()
    ensures var c := Course(0, "C1", "Course", "Ann", 2.5, Some(["s1", "s2"]), []);
            !(EnrolledCount(c) as real >= c.capacity) && !IsEnrolled(c, "s3") &&
            WithinCapacity(c) && !WithinCapacity(Push(c, "s3"))
  {
    var c := Course(0, "C1", "Course", "Ann", 2.5, Some(["s1", "s2"]), []);
    assert EnrolledCount(c) == 2;
    assert !IsEnrolled(c, "s3") by {
      assert c.studentsEnrolled.value == ["s1", "s2"];
      assert "s3" != "s1" && "s3" != "s2";
    }
    assert EnrolledCount(Push(c, "s3")) == 3;
  }

  /** The filter of `/api/student-courses` (lines 394-396): the courses that
      list `who`, in store order; `includes` on an absent list throws, which
      fails the whole request (`None`). */
  function StudentCourses(cs: seq<Course>, who: string): (r: Option<seq<Course>>)
    ensures r.None? <==> exists i :: 0 <= i < |cs| && cs[i].studentsEnrolled.None?
    ensures r.Some? ==> forall k :: 0 <= k < |r.value| ==> r.value[k] in cs && IsEnrolled(r.value[k], who)
    ensures r.Some? ==> forall k :: 0 <= k < |cs| && IsEnrolled(cs[k], who) ==> cs[k] in r.value
  {
    if exists i :: 0 <= i < |cs| && cs[i].studentsEnrolled.None? then None
    else Some(Filter(cs, (c: Course) => IsEnrolled(c, who)))
  }

  /** The student-courses listing of a concatenation of stores is the
      concatenation of the listings: the result keeps store order. */
  lemma StudentCoursesAppend(a: seq<Course>, b: seq<Course>, who: string)
    requires StudentCourses(a, who).Some? && StudentCourses(b, who).Some?
    ensures StudentCourses(a + b, who) == Some(StudentCourses(a, who).value + StudentCourses(b, who).value)
  {
    assert forall i :: 0 <= i < |a| + |b| ==> (a + b)[i] == if i < |a| then a[i] else b[i - |a|];
    FilterAppend(a, b, (c: Course) => IsEnrolled(c, who));
  }

  /** `Course.find({ instructor: name })` (line 430): the courses taught by
      `name`, in store order. */
  function InstructorCourses(cs: seq<Course>, name: string): (r: seq<Course>)
    ensures forall k :: 0 <= k < |r| ==> r[k] in cs && r[k].instructor == name
    ensures forall k :: 0 <= k < |cs| && cs[k].instructor == name ==> cs[k] in r
  {
    Filter(cs, (c: Course) => c.instructor == name)
  }

  lemma InstructorCoursesAppend(a: seq<Course>, b: seq<Course>, name: string)
    ensures InstructorCourses(a + b, name) == InstructorCourses(a, name) + InstructorCourses(b, name)
  {
    FilterAppend(a, b, (c: Course) => c.instructor == name);
  }
}
