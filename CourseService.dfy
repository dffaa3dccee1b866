/**
 * The course service over an in-memory store: the repositories it reads
 * are fields of one object, and the operations that write (enrollment,
 * completion latch, moderation, editing) update those fields in place.
 */
module Service {
  import opened Entities
  import opened Progress
  import opened EnrollmentTable

  /** A course as the listings return it, with the student's progress. */
  datatype CourseSummary = CourseSummary(id: CourseId, title: string, description: string, progress: real)

  /** A course as the lookup by id returns it. */
  datatype CourseView = CourseView(
    id: CourseId,
    course: Course,
    enrolled: bool,
    creator: bool,
    moduleProgress: seq<real>)

  /** The course table after a moderator sets one course's visibility. */
  function WithVisibility(courses: map<CourseId, Course>, id: CourseId, isPublic: bool): map<CourseId, Course>
    requires id in courses
  {
    courses[id := courses[id].(isPublic := isPublic)]
  }

  /** The course table after one course's title and description are overwritten. */
  function WithDetails(courses: map<CourseId, Course>, id: CourseId, title: string, description: string): map<CourseId, Course>
    requires id in courses
  {
    courses[id := courses[id].(title := title, description := description)]
  }

  /** Setting visibility touches only the flag of the one course. */
  lemma VisibilityTouchesOnlyFlag(courses: map<CourseId, Course>, id: CourseId, isPublic: bool)
    requires id in courses
    ensures WithVisibility(courses, id, isPublic).Keys == courses.Keys
    ensures WithVisibility(courses, id, isPublic)[id]
         == Course(courses[id].title, courses[id].description, isPublic, courses[id].teacherId)
    ensures forall c :: c in courses && c != id ==> WithVisibility(courses, id, isPublic)[c] == courses[c]
  {
  }

  /** Approving (or disallowing) twice is approving (disallowing) once; the last call wins. */
  lemma VisibilityLastCallWins(courses: map<CourseId, Course>, id: CourseId, first: bool, second: bool)
    requires id in courses
    ensures WithVisibility(WithVisibility(courses, id, first), id, second) == WithVisibility(courses, id, second)
    ensures WithVisibility(WithVisibility(courses, id, second), id, second) == WithVisibility(courses, id, second)
  {
  }

  /** Editing touches only title and description of the one course. */
  lemma EditTouchesOnlyDetails(courses: map<CourseId, Course>, id: CourseId, title: string, description: string)
    requires id in courses
    ensures WithDetails(courses, id, title, description).Keys == courses.Keys
    ensures WithDetails(courses, id, title, description)[id]
         == Course(title, description, courses[id].isPublic, courses[id].teacherId)
    ensures forall c :: c in courses && c != id ==> WithDetails(courses, id, title, description)[c] == courses[c]
  {
  }

  /** The read-only repositories a progress or completion query looks at. */
  datatype Catalog = Catalog(
    courses: map<CourseId, Course>,
    courseModules: map<CourseId, seq<ModuleId>>,
    moduleQuizzes: map<ModuleId, seq<QuizId>>,
    attempts: seq<QuizAttempt>)

  /** Live completion of course c by student s. */
  predicate Completed(cat: Catalog, s: StudentId, c: CourseId)
  {
    CourseCompleted(cat.attempts, cat.moduleQuizzes, s, ModulesOf(cat.courseModules, c))
  }

  /** Live progress of student s in course c. */
  function ProgressIn(cat: Catalog, s: StudentId, c: CourseId): real
  {
    CourseProgress(cat.attempts, cat.moduleQuizzes, s, ModulesOf(cat.courseModules, c))
  }

  function Summary(cat: Catalog, s: StudentId, c: CourseId): CourseSummary
    requires c in cat.courses
  {
    CourseSummary(c, cat.courses[c].title, cat.courses[c].description, ProgressIn(cat, s, c))
  }

  /** `out` lists the summaries of the courses `ids`, in order. */
  ghost predicate Summaries(cat: Catalog, s: StudentId, out: seq<CourseSummary>, ids: seq<CourseId>)
  {
    |out| == |ids| && forall k :: 0 <= k < |ids| ==> ids[k] in cat.courses && out[k] == Summary(cat, s, ids[k])
  }

  /** Some course of `cs` is a stored public course. */
  ghost predicate AnyPublic(courses: map<CourseId, Course>, cs: seq<CourseId>)
  {
    exists c :: c in cs && c in courses && courses[c].isPublic
  }

  /** The courses of `cs` that are public and not completed by s, in order. */
  function Unfinished(cat: Catalog, s: StudentId, cs: seq<CourseId>): (r: seq<CourseId>)
    ensures forall c :: c in r <==> c in cs && c in cat.courses && cat.courses[c].isPublic && !Completed(cat, s, c)
    decreases |cs|
  {
    if |cs| == 0 then []
    else
      var c := cs[|cs| - 1];
      assert forall x :: x in cs <==> x in cs[..|cs| - 1] || x == c;
      Unfinished(cat, s, cs[..|cs| - 1])
        + (if c in cat.courses && cat.courses[c].isPublic && !Completed(cat, s, c) then [c] else [])
  }

  lemma UnfinishedMember(cat: Catalog, s: StudentId, cs: seq<CourseId>, c: CourseId)
    requires c in Unfinished(cat, s, cs)
    ensures c in cs && c in cat.courses && cat.courses[c].isPublic && !Completed(cat, s, c)
  {
  }

  /** The courses of `cs` that s has completed, in order. */
  function CompletedAmong(cat: Catalog, s: StudentId, cs: seq<CourseId>): (r: seq<CourseId>)
    ensures forall c :: c in r <==> c in cs && Completed(cat, s, c)
    decreases |cs|
  {
    if |cs| == 0 then []
    else
      var c := cs[|cs| - 1];
      assert forall x :: x in cs <==> x in cs[..|cs| - 1] || x == c;
      CompletedAmong(cat, s, cs[..|cs| - 1]) + (if Completed(cat, s, c) then [c] else [])
  }

  lemma SummariesSnoc(cat: Catalog, s: StudentId, out: seq<CourseSummary>, ids: seq<CourseId>, c: CourseId)
    requires Summaries(cat, s, out, ids) && c in cat.courses
    ensures Summaries(cat, s, out + [Summary(cat, s, c)], ids + [c])
  {
  }

  /** Listing one more course keeps the listing in step with the completed courses. */
  lemma CompletedListingStep(cat: Catalog, s: StudentId, out: seq<CourseSummary>, cs: seq<CourseId>, c: CourseId)
    requires Summaries(cat, s, out, CompletedAmong(cat, s, cs)) && c in cat.courses
    ensures Summaries(cat, s, out + (if Completed(cat, s, c) then [Summary(cat, s, c)] else []),
                      CompletedAmong(cat, s, cs + [c]))
  {
    assert (cs + [c])[..|cs|] == cs;
  }

  /** The row of student s, with its flag latched when the course is completed. */
  function Refreshed(cat: Catalog, s: StudentId, e: Enrollment): Enrollment
  {
    if e.studentId == s && Completed(cat, s, e.courseId) then e.(completed := true) else e
  }

  /** Row k of `table` once the completed courses among `done` have been refreshed for s. */
  function RefreshedAmong(cat: Catalog, s: StudentId, table: seq<Enrollment>, done: seq<CourseId>, k: nat): Enrollment
    requires k < |table|
  {
    if table[k].studentId == s && table[k].courseId in done then Refreshed(cat, s, table[k]) else table[k]
  }

  /** `cur` is `table` with the completed courses among `done` refreshed for s. */
  ghost predicate RefreshedUpTo(cat: Catalog, s: StudentId, table: seq<Enrollment>, cur: seq<Enrollment>, done: seq<CourseId>)
  {
    |cur| == |table| && forall k :: 0 <= k < |table| ==> cur[k] == RefreshedAmong(cat, s, table, done, k)
  }

  /** One more course of s refreshed: the latch lands on the one row keyed (s, c). */
  lemma RefreshStep(cat: Catalog, s: StudentId, table: seq<Enrollment>, cur: seq<Enrollment>, done: seq<CourseId>, c: CourseId)
    requires KeysUnique(cur) && Enrolled(table, s, c) && RefreshedUpTo(cat, s, table, cur, done)
    ensures Enrolled(cur, s, c)
    ensures RefreshedUpTo(cat, s, table, if Completed(cat, s, c) then Latch(cur, IndexOf(cur, s, c).value) else cur, done + [c])
  {
    var i :| 0 <= i < |table| && HasKey(table[i], s, c);
    assert HasKey(cur[i], s, c);
    var next := if Completed(cat, s, c) then Latch(cur, IndexOf(cur, s, c).value) else cur;
    forall k | 0 <= k < |table|
      ensures next[k] == RefreshedAmong(cat, s, table, done + [c], k)
    {
      assert table[k].courseId in done + [c] <==> table[k].courseId in done || table[k].courseId == c;
      if HasKey(table[k], s, c) {
        assert HasKey(cur[k], s, c);
      }
    }
  }

  /**
   * `out` lists the courses of s in `table` that s has completed, and `cur`
   * is `table` with the completed flag of each of those rows set.
   */
  ghost predicate CompletedListing(cat: Catalog, s: StudentId, table: seq<Enrollment>, cur: seq<Enrollment>,
                                   out: seq<CourseSummary>)
  {
    && Summaries(cat, s, out, CompletedAmong(cat, s, CoursesOf(table, s)))
    && |cur| == |table|
    && forall k :: 0 <= k < |table| ==> cur[k] == Refreshed(cat, s, table[k])
  }

  /** `out` lists the completed courses among `done`, and `cur` is `table` refreshed for them. */
  ghost predicate Listed(cat: Catalog, s: StudentId, table: seq<Enrollment>, cur: seq<Enrollment>,
                         out: seq<CourseSummary>, done: seq<CourseId>)
  {
    Summaries(cat, s, out, CompletedAmong(cat, s, done)) && RefreshedUpTo(cat, s, table, cur, done)
  }

  /** Once every course of s has been visited, the listing is complete. */
  lemma ListedAll(cat: Catalog, s: StudentId, table: seq<Enrollment>, cur: seq<Enrollment>, out: seq<CourseSummary>)
    requires Listed(cat, s, table, cur, out, CoursesOf(table, s))
    ensures CompletedListing(cat, s, table, cur, out)
  {
    forall k | 0 <= k < |table| && table[k].studentId == s
      ensures table[k].courseId in CoursesOf(table, s)
    {
      assert HasKey(table[k], s, table[k].courseId);
    }
  }

  /** Extending a prefix by one element. */
  lemma PrefixSnoc<T>(s: seq<T>, i: nat)
    requires i < |s|
    ensures s[..i + 1] == s[..i] + [s[i]]
  {
  }

  class CourseService {
    var courses: map<CourseId, Course>
    var courseModules: map<CourseId, seq<ModuleId>>
    var moduleQuizzes: map<ModuleId, seq<QuizId>>
    var attempts: seq<QuizAttempt>
    var students: set<StudentId>
    var enrollments: seq<Enrollment>

    /** One row per (student, course) key, and every row refers to a stored course. */
    ghost predicate Valid()
      reads this
    {
      && KeysUnique(enrollments)
      && forall i :: 0 <= i < |enrollments| ==> enrollments[i].courseId in courses
    }

    constructor (courses: map<CourseId, Course>, courseModules: map<CourseId, seq<ModuleId>>,
                 moduleQuizzes: map<ModuleId, seq<QuizId>>, attempts: seq<QuizAttempt>,
                 students: set<StudentId>, enrollments: seq<Enrollment>)
      requires KeysUnique(enrollments)
      requires forall i :: 0 <= i < |enrollments| ==> enrollments[i].courseId in courses
      ensures Valid()
      ensures this.courses == courses && this.courseModules == courseModules
      ensures this.moduleQuizzes == moduleQuizzes && this.attempts == attempts
      ensures this.students == students && this.enrollments == enrollments
    {
      this.courses := courses;
      this.courseModules := courseModules;
      this.moduleQuizzes := moduleQuizzes;
      this.attempts := attempts;
      this.students := students;
      this.enrollments := enrollments;
    }

    /** The repositories progress and completion are computed from. */
    function Snapshot(): Catalog
      reads this`courses, this`courseModules, this`moduleQuizzes, this`attempts
    {
      Catalog(courses, courseModules, moduleQuizzes, attempts)
    }

    lemma EnrolledCourseIsStored(s: StudentId, c: CourseId)
      requires Valid() && Enrolled(enrollments, s, c)
      ensures c in courses
    {
      var i :| 0 <= i < |enrollments| && HasKey(enrollments[i], s, c);
    }

    // -------------------------------------------------------------------
    // Progress and completion

    /**
     * Progress of s in module m: 100 for a quiz-less module (checked before
     * the student lookup), otherwise the total of passed latest scores over
     * the number of quizzes.
     */
    method CalculateModuleProgress(s: StudentId, m: ModuleId) returns (r: Result<real>)
      ensures r.Err? <==> |QuizzesOf(moduleQuizzes, m)| > 0 && s !in students
      ensures r.Err? ==> r.error == StudentNotFound
      ensures r.Ok? ==> r.value == ModuleProgress(attempts, s, QuizzesOf(moduleQuizzes, m))
    {
      var qs := QuizzesOf(moduleQuizzes, m);
      if |qs| == 0 {
        return Ok(100.0);
      }
      if s !in students {
        return Err(StudentNotFound);
      }
      var total := 0.0;
      var i := 0;
      while i < |qs|
        invariant 0 <= i <= |qs|
        invariant total == ScoreSum(attempts, s, qs[..i])
      {
        var last := LatestAttempt(attempts, s, qs[i]);
        if last.Some? && last.value.passed {
          total := total + last.value.score;
        }
        assert qs[..i + 1][..i] == qs[..i];
        i := i + 1;
      }
      assert qs[..|qs|] == qs;
      return Ok(total / (|qs| as real));
    }

    /** Whether s has a passed latest attempt at every quiz of every module of c. */
    method IsCourseCompleted(s: StudentId, c: CourseId) returns (r: Result<bool>)
      ensures r.Err? <==> s !in students
      ensures r.Err? ==> r.error == StudentNotFound
      ensures r.Ok? ==> r.value == Completed(Snapshot(), s, c)
    {
      var ms := ModulesOf(courseModules, c);
      if s !in students {
        return Err(StudentNotFound);
      }
      var i := 0;
      while i < |ms|
        invariant 0 <= i <= |ms|
        invariant forall k :: 0 <= k < i ==> ModuleCompleted(attempts, s, QuizzesOf(moduleQuizzes, ms[k]))
      {
        var passed := AllQuizzesPassed(s, QuizzesOf(moduleQuizzes, ms[i]));
        if !passed {
          return Ok(false);
        }
        i := i + 1;
      }
      return Ok(true);
    }

    /** The inner loop of the completion check: the first quiz without a passed latest attempt stops it. */
    method AllQuizzesPassed(s: StudentId, qs: seq<QuizId>) returns (b: bool)
      ensures b <==> ModuleCompleted(attempts, s, qs)
    {
      var j := 0;
      while j < |qs|
        invariant 0 <= j <= |qs|
        invariant forall k :: 0 <= k < j ==> QuizPassed(attempts, s, qs[k])
      {
        var last := LatestAttempt(attempts, s, qs[j]);
        if last.None? || !last.value.passed {
          assert !QuizPassed(attempts, s, qs[j]);
          return false;
        }
        j := j + 1;
      }
      return true;
    }

    /**
     * The table after the completion update of the (s, c) row: that row is
     * latched when it exists, the student is known and c is completed.
     */
    function StatusUpdated(s: StudentId, c: CourseId, t: seq<Enrollment>): seq<Enrollment>
      reads this`students, this`courses, this`courseModules, this`moduleQuizzes, this`attempts
    {
      var idx := IndexOf(t, s, c);
      if idx.Some? && s in students && Completed(Snapshot(), s, c) then Latch(t, idx.value) else t
    }

    /**
     * What computing the progress of s in c yields against table t: the
     * missing-student error of a module with quizzes comes first, then the
     * missing enrollment row, then the missing student of the completion check.
     */
    function ProgressResult(s: StudentId, c: CourseId, t: seq<Enrollment>): Result<real>
      reads this`students, this`courses, this`courseModules, this`moduleQuizzes, this`attempts
    {
      if s !in students && HasQuizzes(moduleQuizzes, ModulesOf(courseModules, c)) then Err(StudentNotFound)
      else if !Enrolled(t, s, c) then Err(EnrollmentNotFound)
      else if s !in students then Err(StudentNotFound)
      else Ok(ProgressIn(Snapshot(), s, c))
    }

    /** The completion update only ever sets flags, and keeps the keys. */
    lemma StatusUpdatedIsLatch(s: StudentId, c: CourseId, t: seq<Enrollment>)
      requires KeysUnique(t)
      ensures KeysUnique(StatusUpdated(s, c, t)) && |StatusUpdated(s, c, t)| == |t|
      ensures forall i :: 0 <= i < |t| ==>
        HasKey(StatusUpdated(s, c, t)[i], t[i].studentId, t[i].courseId)
        && (t[i].completed ==> StatusUpdated(s, c, t)[i].completed)
      ensures forall i :: 0 <= i < |t| && !HasKey(t[i], s, c) ==> StatusUpdated(s, c, t)[i] == t[i]
      ensures Enrolled(t, s, c) && s in students && Completed(Snapshot(), s, c) ==>
        forall i :: 0 <= i < |t| && HasKey(t[i], s, c) ==> StatusUpdated(s, c, t)[i].completed
    {
      var idx := IndexOf(t, s, c);
      if idx.Some? {
        LatchKeepsKeysUnique(t, idx.value);
        LatchIsMonotone(t, idx.value);
      }
    }

    /**
     * Latches the completed flag of the (s, c) row when c is completed;
     * fails when there is no such row.
     */
    method UpdateEnrollmentStatus(s: StudentId, c: CourseId) returns (r: Outcome)
      requires Valid()
      modifies this`enrollments
      ensures Valid()
      ensures r == if !Enrolled(old(enrollments), s, c) then Failed(EnrollmentNotFound)
                   else if s !in students then Failed(StudentNotFound)
                   else Done
      ensures enrollments == StatusUpdated(s, c, old(enrollments))
    {
      var idx := IndexOf(enrollments, s, c);
      if idx.None? {
        return Failed(EnrollmentNotFound);
      }
      var done := IsCourseCompleted(s, c);
      if done.Err? {
        return Failed(done.error);
      }
      if done.value {
        LatchKeepsKeysUnique(enrollments, idx.value);
        enrollments := Latch(enrollments, idx.value);
      }
      return Done;
    }

    /**
     * Mean module progress of s in c (0 for a module-less course), followed
     * by the completion update of the (s, c) row.
     */
    method CalculateCourseProgress(s: StudentId, c: CourseId) returns (r: Result<real>)
      requires Valid()
      modifies this`enrollments
      ensures Valid()
      ensures r == ProgressResult(s, c, old(enrollments))
      ensures enrollments == StatusUpdated(s, c, old(enrollments))
    {
      var ms := ModulesOf(courseModules, c);
      var total := 0.0;
      var i := 0;
      while i < |ms|
        invariant 0 <= i <= |ms|
        invariant enrollments == old(enrollments)
        invariant total == ProgressSum(attempts, moduleQuizzes, s, ms[..i])
        invariant s !in students ==> forall k :: 0 <= k < i ==> |QuizzesOf(moduleQuizzes, ms[k])| == 0
      {
        var p := CalculateModuleProgress(s, ms[i]);
        if p.Err? {
          assert |QuizzesOf(moduleQuizzes, ms[i])| > 0;
          return Err(p.error);
        }
        total := total + p.value;
        assert ms[..i + 1][..i] == ms[..i];
        i := i + 1;
      }
      assert ms[..|ms|] == ms;
      var progress := if |ms| == 0 then 0.0 else total / (|ms| as real);
      var u := UpdateEnrollmentStatus(s, c);
      if u.Failed? {
        return Err(u.error);
      }
      return Ok(progress);
    }

    // -------------------------------------------------------------------
    // Lookup and enrollment

    /**
     * The course with its caller-dependent flags: a student gets the
     * enrolled flag and live module progress, a teacher the creator flag,
     * and everyone but a student gets 0 progress on every module.
     */
    method FindCourseById(id: CourseId, caller: Caller) returns (r: Result<CourseView>)
      ensures id !in courses ==> r == Err(CourseNotFound)
      ensures (id in courses && caller.Student? && caller.id !in students
               && HasQuizzes(moduleQuizzes, ModulesOf(courseModules, id))) ==> r == Err(StudentNotFound)
      ensures r.Ok? <==> id in courses && !(caller.Student? && caller.id !in students
                                            && HasQuizzes(moduleQuizzes, ModulesOf(courseModules, id)))
      ensures r.Ok? ==>
        && r.value.id == id && r.value.course == courses[id]
        && r.value.enrolled == (caller.Student? && Enrolled(enrollments, caller.id, id))
        && r.value.creator == (caller.Teacher? && courses[id].teacherId == caller.id)
        && |r.value.moduleProgress| == |ModulesOf(courseModules, id)|
        && forall k :: 0 <= k < |ModulesOf(courseModules, id)| ==>
             r.value.moduleProgress[k]
             == if caller.Student?
                then ModuleProgress(attempts, caller.id, QuizzesOf(moduleQuizzes, ModulesOf(courseModules, id)[k]))
                else 0.0
    {
      if id !in courses {
        return Err(CourseNotFound);
      }
      var course := courses[id];
      var ms := ModulesOf(courseModules, id);
      var enrolled := false;
      var creator := false;
      var progress: seq<real> := [];
      match caller {
        case Student(s) =>
          enrolled := IndexOf(enrollments, s, id).Some?;
          var i := 0;
          while i < |ms|
            invariant 0 <= i <= |ms|
            invariant |progress| == i
            invariant forall k :: 0 <= k < i ==> progress[k] == ModuleProgress(attempts, s, QuizzesOf(moduleQuizzes, ms[k]))
            invariant s !in students ==> forall k :: 0 <= k < i ==> |QuizzesOf(moduleQuizzes, ms[k])| == 0
          {
            var p := CalculateModuleProgress(s, ms[i]);
            if p.Err? {
              return Err(p.error);
            }
            progress := progress + [p.value];
            i := i + 1;
          }
        case Teacher(t) =>
          creator := course.teacherId == t;
          progress := seq(|ms|, _ => 0.0);
        case OtherRole =>
          progress := seq(|ms|, _ => 0.0);
        case Anonymous =>
          progress := seq(|ms|, _ => 0.0);
      }
      return Ok(CourseView(id, course, enrolled, creator, progress));
    }

    /**
     * Enrolls the calling student in course c with completed = false; fails
     * for a non-student caller, an unknown course or an existing row.
     */
    method EnrollCourse(c: CourseId, caller: Caller) returns (r: Outcome)
      requires Valid()
      modifies this`enrollments
      ensures Valid()
      ensures caller.Anonymous? ==> r == Failed(Unauthenticated)
      ensures caller.Teacher? || caller.OtherRole? ==> r == Failed(NotAStudent)
      ensures caller.Student? && c !in courses ==> r == Failed(CourseNotFound)
      ensures caller.Student? && c in courses && Enrolled(old(enrollments), caller.id, c) ==> r == Failed(AlreadyEnrolled)
      ensures caller.Student? && c in courses && !Enrolled(old(enrollments), caller.id, c) ==>
        r == Done && enrollments == Insert(old(enrollments), caller.id, c)
      ensures r.Failed? ==> enrollments == old(enrollments)
      ensures caller.Student? && c in courses ==> Enrolled(enrollments, caller.id, c)
    {
      if caller.Anonymous? {
        return Failed(Unauthenticated);
      }
      if !caller.Student? {
        return Failed(NotAStudent);
      }
      var s := caller.id;
      if c !in courses {
        return Failed(CourseNotFound);
      }
      if IndexOf(enrollments, s, c).Some? {
        return Failed(AlreadyEnrolled);
      }
      InsertKeepsKeysUnique(enrollments, s, c);
      enrollments := Insert(enrollments, s, c);
      return Done;
    }

    // -------------------------------------------------------------------
    // Moderation and editing

    /** Makes course id public. */
    method Approve(id: CourseId) returns (r: Outcome)
      requires Valid()
      modifies this`courses
      ensures Valid()
      ensures id !in old(courses) ==> r == Failed(CourseNotFound) && courses == old(courses)
      ensures id in old(courses) ==> r == Done && courses == WithVisibility(old(courses), id, true)
    {
      if id !in courses {
        return Failed(CourseNotFound);
      }
      courses := WithVisibility(courses, id, true);
      return Done;
    }

    /** Makes course id private. */
    method Disallow(id: CourseId) returns (r: Outcome)
      requires Valid()
      modifies this`courses
      ensures Valid()
      ensures id !in old(courses) ==> r == Failed(CourseNotFound) && courses == old(courses)
      ensures id in old(courses) ==> r == Done && courses == WithVisibility(old(courses), id, false)
    {
      if id !in courses {
        return Failed(CourseNotFound);
      }
      courses := WithVisibility(courses, id, false);
      return Done;
    }

    /** Overwrites the title and description of course id. */
    method EditCourse(title: string, description: string, id: CourseId) returns (r: Outcome)
      requires Valid()
      modifies this`courses
      ensures Valid()
      ensures id !in old(courses) ==> r == Failed(CourseNotFound) && courses == old(courses)
      ensures id in old(courses) ==> r == Done && courses == WithDetails(old(courses), id, title, description)
    {
      if id !in courses {
        return Failed(CourseNotFound);
      }
      courses := WithDetails(courses, id, title, description);
      return Done;
    }

    // -------------------------------------------------------------------
    // Listings

    /**
     * The public courses, narrowed by the title match when the search is
     * present and non-empty.
     */
    function GetCourses(search: Option<string>, titleMatches: (string, string) -> bool): (r: set<CourseId>)
      reads this
      ensures forall c :: c in r ==> c in courses && courses[c].isPublic
      ensures (search.None? || search.value == "") ==>
        forall c :: c in courses && courses[c].isPublic ==> c in r
      ensures search.Some? && search.value != "" ==>
        forall c :: c in courses && courses[c].isPublic ==> (c in r <==> titleMatches(courses[c].title, search.value))
    {
      if search.Some? && search.value != "" then
        set c | c in courses && courses[c].isPublic && titleMatches(courses[c].title, search.value)
      else
        set c | c in courses && courses[c].isPublic
    }

    /**
     * The filter stage of the student's course listing: the public courses
     * of `cs` that s has not completed, in order. Completion is asked only
     * of public courses, so only they can raise the missing-student error.
     */
    method SelectUnfinished(s: StudentId, cs: seq<CourseId>) returns (r: Result<seq<CourseId>>)
      requires forall c :: c in cs ==> c in courses
      ensures r.Err? <==> s !in students && AnyPublic(courses, cs)
      ensures r.Err? ==> r.error == StudentNotFound
      ensures r.Ok? ==> r.value == Unfinished(Snapshot(), s, cs)
    {
      ghost var cat := Snapshot();
      var kept: seq<CourseId> := [];
      var i := 0;
      while i < |cs|
        invariant 0 <= i <= |cs|
        invariant kept == Unfinished(cat, s, cs[..i])
        invariant s !in students ==> forall k :: 0 <= k < i ==> cs[k] in courses && !courses[cs[k]].isPublic
      {
        var c := cs[i];
        if courses[c].isPublic {
          var done := IsCourseCompleted(s, c);
          if done.Err? {
            return Err(done.error);
          }
          if !done.value {
            kept := kept + [c];
          }
        }
        assert cs[..i + 1][..i] == cs[..i];
        i := i + 1;
      }
      assert cs[..|cs|] == cs;
      return Ok(kept);
    }

    /**
     * The map stage of the student's course listing: the progress of s in
     * each kept course, in order. None of them is completed, so computing
     * their progress leaves the table as it is.
     */
    method SummarizeUnfinished(s: StudentId, kept: seq<CourseId>) returns (out: seq<CourseSummary>)
      requires Valid()
      requires |kept| > 0 ==> s in students
      requires forall k :: 0 <= k < |kept| ==>
        kept[k] in courses && Enrolled(enrollments, s, kept[k]) && !Completed(Snapshot(), s, kept[k])
      modifies this`enrollments
      ensures Valid() && enrollments == old(enrollments)
      ensures Summaries(Snapshot(), s, out, kept)
    {
      ghost var cat := Snapshot();
      out := [];
      var j := 0;
      while j < |kept|
        invariant 0 <= j <= |kept|
        invariant Valid() && enrollments == old(enrollments) && Snapshot() == cat
        invariant Summaries(cat, s, out, kept[..j])
      {
        var c := kept[j];
        SummariesSnoc(cat, s, out, kept[..j], c);
        PrefixSnoc(kept, j);
        var p := CalculateCourseProgress(s, c);
        out := out + [CourseSummary(c, courses[c].title, courses[c].description, p.value)];
        j := j + 1;
      }
      assert kept[..|kept|] == kept;
    }

    /**
     * The public courses the calling student is enrolled in and has not
     * completed, in table order, each with its progress. The table does
     * not change: none of the listed courses is completed.
     */
    method GetMyCourses(caller: Caller) returns (r: Result<seq<CourseSummary>>)
      requires Valid()
      modifies this`enrollments
      ensures Valid() && enrollments == old(enrollments)
      ensures caller.Anonymous? ==> r == Err(Unauthenticated)
      ensures caller.Teacher? || caller.OtherRole? ==> r == Err(NotAStudent)
      ensures caller.Student? && caller.id !in students && AnyPublic(courses, CoursesOf(enrollments, caller.id)) ==>
        r == Err(StudentNotFound)
      ensures caller.Student? && !(caller.id !in students && AnyPublic(courses, CoursesOf(enrollments, caller.id))) ==>
        r.Ok? && Summaries(Snapshot(), caller.id, r.value, Unfinished(Snapshot(), caller.id, CoursesOf(enrollments, caller.id)))
    {
      if caller.Anonymous? {
        return Err(Unauthenticated);
      }
      if !caller.Student? {
        return Err(NotAStudent);
      }
      var s := caller.id;
      var enrolled := CoursesOf(enrollments, s);
      forall c | c in enrolled ensures c in courses {
        EnrolledCourseIsStored(s, c);
      }
      var selected := SelectUnfinished(s, enrolled);
      if selected.Err? {
        return Err(selected.error);
      }
      var kept := selected.value;
      ghost var cat := Snapshot();
      forall k | 0 <= k < |kept|
        ensures kept[k] in enrolled && kept[k] in cat.courses && cat.courses[kept[k]].isPublic && !Completed(cat, s, kept[k])
      {
        UnfinishedMember(cat, s, enrolled, kept[k]);
      }
      if |kept| > 0 {
        assert kept[0] in enrolled && kept[0] in courses && courses[kept[0]].isPublic;
      }
      var out := SummarizeUnfinished(s, kept);
      return Ok(out);
    }

    /**
     * One element of the completed-course listing: completion is checked
     * (which needs a known student), and a completed course is listed with
     * its progress, whose computation latches its row.
     */
    method SummarizeIfCompleted(s: StudentId, c: CourseId) returns (r: Result<seq<CourseSummary>>)
      requires Valid() && Enrolled(enrollments, s, c) && c in courses
      modifies this`enrollments
      ensures Valid()
      ensures r.Err? <==> s !in students
      ensures r.Err? ==> r.error == StudentNotFound && enrollments == old(enrollments)
      ensures r.Ok? ==> r.value == if Completed(Snapshot(), s, c) then [Summary(Snapshot(), s, c)] else []
      ensures r.Ok? ==> enrollments == if Completed(Snapshot(), s, c)
                                       then Latch(old(enrollments), IndexOf(old(enrollments), s, c).value)
                                       else old(enrollments)
    {
      var done := IsCourseCompleted(s, c);
      if done.Err? {
        return Err(done.error);
      }
      if !done.value {
        return Ok([]);
      }
      var p := CalculateCourseProgress(s, c);
      return Ok([CourseSummary(c, courses[c].title, courses[c].description, p.value)]);
    }

    /**
     * The listing after one more enrolled course: the course is appended
     * when completed, and its row latched.
     */
    method ListNext(s: StudentId, c: CourseId, ghost table: seq<Enrollment>, ghost done: seq<CourseId>,
                    out: seq<CourseSummary>) returns (r: Result<seq<CourseSummary>>)
      requires Valid() && Enrolled(table, s, c) && Listed(Snapshot(), s, table, enrollments, out, done)
      modifies this`enrollments
      ensures Valid()
      ensures r.Err? <==> s !in students
      ensures r.Err? ==> r.error == StudentNotFound && enrollments == old(enrollments)
      ensures r.Ok? ==> Listed(Snapshot(), s, table, enrollments, r.value, done + [c])
    {
      ghost var cat := Snapshot();
      RefreshStep(cat, s, table, enrollments, done, c);
      EnrolledCourseIsStored(s, c);
      CompletedListingStep(cat, s, out, done, c);
      var step := SummarizeIfCompleted(s, c);
      if step.Err? {
        return Err(step.error);
      }
      return Ok(out + step.value);
    }

    /**
     * The courses the resolved student has completed, in table order, each
     * with its progress; computing that progress latches the completed flag
     * of every such row. The student is resolved from the caller's email
     * beforehand, and an unresolved caller is refused.
     */
    method GetCompletedCourses(resolved: Option<StudentId>) returns (r: Result<seq<CourseSummary>>)
      requires Valid()
      modifies this`enrollments
      ensures Valid()
      ensures r.Err? ==> enrollments == old(enrollments)
      ensures resolved.None? ==> r == Err(StudentNotFound)
      ensures resolved.Some? && resolved.value !in students && |CoursesOf(old(enrollments), resolved.value)| > 0 ==>
        r == Err(StudentNotFound)
      ensures resolved.Some? && !(resolved.value !in students && |CoursesOf(old(enrollments), resolved.value)| > 0) ==>
        r.Ok? && CompletedListing(Snapshot(), resolved.value, old(enrollments), enrollments, r.value)
    {
      if resolved.None? {
        return Err(StudentNotFound);
      }
      r := ListCompleted(resolved.value);
    }

    /** The stream over the courses of s: each one is checked and, when completed, listed. */
    method ListCompleted(s: StudentId) returns (r: Result<seq<CourseSummary>>)
      requires Valid()
      modifies this`enrollments
      ensures Valid()
      ensures r.Err? <==> s !in students && |CoursesOf(old(enrollments), s)| > 0
      ensures r.Err? ==> r.error == StudentNotFound && enrollments == old(enrollments)
      ensures r.Ok? ==> CompletedListing(Snapshot(), s, old(enrollments), enrollments, r.value)
    {
      var enrolled := CoursesOf(enrollments, s);
      ghost var table := enrollments;
      ghost var cat := Snapshot();
      var out: seq<CourseSummary> := [];
      var i := 0;
      while i < |enrolled|
        invariant 0 <= i <= |enrolled|
        invariant s !in students ==> i == 0
        invariant i == 0 ==> enrollments == table
        invariant Valid() && Snapshot() == cat
        invariant Listed(cat, s, table, enrollments, out, enrolled[..i])
      {
        var next := ListNext(s, enrolled[i], table, enrolled[..i], out);
        if next.Err? {
          return Err(next.error);
        }
        out := next.value;
        PrefixSnoc(enrolled, i);
        i := i + 1;
      }
      assert enrolled[..|enrolled|] == enrolled;
      ListedAll(cat, s, table, enrollments, out);
      return Ok(out);
    }
  }

  /** The store of the worked scenario below, as the progress queries see it. */
  function ScenarioCatalog(): Catalog
  {
    Catalog(map[7 := Course("Algebra", "Basics", true, 3)], map[7 := [5]], map[5 := [10, 11]],
            [QuizAttempt(1, 10, 1, 80.0, true), QuizAttempt(1, 11, 1, 100.0, true)])
  }

  lemma ScenarioCatalogFacts()
    ensures ProgressIn(ScenarioCatalog(), 1, 7) == 90.0
    ensures Completed(ScenarioCatalog(), 1, 7)
  {
    var cat := ScenarioCatalog();
    ScenarioBothPassed();
    assert ModulesOf(cat.courseModules, 7) == [5];
    assert ProgressSum(cat.attempts, cat.moduleQuizzes, 1, [5]) == 90.0 by {
      assert [5][..0] == [];
    }
  }

  /**
   * A worked scenario on the store: student 1, enrolled in course 7 whose one
   * module 5 holds quizzes 10 and 11, has passed both (80 and 100). Asking
   * for the course progress gives 90 and latches the enrollment row.
   */
  method ScenarioProgressLatches() returns (p: Result<real>, table: seq<Enrollment>)
    ensures p == Ok(90.0)
    ensures table == [Enrollment(1, 7, true)]
  {
    var cat := ScenarioCatalog();
    var svc := new CourseService(cat.courses, cat.courseModules, cat.moduleQuizzes, cat.attempts,
                                 {1}, [Enrollment(1, 7, false)]);
    ScenarioCatalogFacts();
    assert svc.Snapshot() == cat;
    assert HasKey(svc.enrollments[0], 1, 7);
    p := svc.CalculateCourseProgress(1, 7);
    table := svc.enrollments;
  }
}
