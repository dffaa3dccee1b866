# Course service of the e-learning backend, in Dafny

This project models the course service of the e-learning backend
(`CourseServiceImpl`). That service tracks three things:

- what a student has done in a course: quiz attempts, module progress,
  course progress and course completion;
- the enrollment table, whose completed flag is a one-way latch;
- course moderation and the course listings.

The repositories the service reads become the fields of one `CourseService`
object:

- the course table;
- the modules of each course;
- the quizzes of each module;
- the recorded quiz attempts;
- the known students;
- the enrollment rows.

The operations that write the store update those fields in place. These are
enrolling, the completion latch, approve/disallow and edit. Each method is
proved against pure specification functions, and the properties of those
functions are proved as lemmas.

Layout:

- `Entities.dfy`: ids, courses, quiz attempts, the caller and the error kinds.
- `Progress.dfy`: the pure definitions and their lemmas.
  - The latest attempt at a quiz is the one with the highest attempt number.
  - Module progress is 100 for a module without quizzes. Otherwise it is the
    sum of the scores of the passed latest attempts, divided by the number of
    quizzes.
  - Course progress is 0 for a course without modules. Otherwise it is the
    unweighted mean of its module progresses.
  - A course is completed when every quiz of every module has a passed latest
    attempt. A course without modules is therefore completed.
- `EnrollmentTable.dfy`: the enrollment rows, kept in table order, with the
  invariant that the key (student, course) identifies at most one row. It
  also holds key lookup, a student's courses, insertion and the latch.
- `CourseService.dfy`: the class with its loops, its failures and its state
  changes, plus the pure descriptions of the listings.

Where the code and its written description disagree, the model follows the
code:

- `getCourses` narrows by title only when the search string is non-empty
  (`isEmpty`). A blank string such as `"  "` is passed on as a search term.
- `calculateModuleProgress` answers 100 for a module without quizzes before
  it looks the student up. So an unknown student gets 100 there instead of
  an error.

## Model

| member | source | states |
|---|---|---|
| Progress.LatestAttempt | backend/src/main/java/kz/sayat/diploma_backend/course_module/service/implementations/CourseServiceImpl.java:239 | None exactly when the student never attempted the quiz; otherwise a recorded attempt of that student at that quiz whose attempt number no other such attempt exceeds |
| Progress.LatestAttemptUnique | backend/src/main/java/kz/sayat/diploma_backend/course_module/service/implementations/CourseServiceImpl.java:183 | when attempt numbers never repeat, the latest attempt is the single attempt with the top number |
| Progress.EmptyModuleIsFull | backend/src/main/java/kz/sayat/diploma_backend/course_module/service/implementations/CourseServiceImpl.java:227-229 | a module without quizzes has progress 100 and counts as completed |
| Progress.ContributionInRange | backend/src/main/java/kz/sayat/diploma_backend/course_module/service/implementations/CourseServiceImpl.java:241-243 | with percentage scores a quiz adds between 0 and 100 to the module total, and a quiz without a passed latest attempt adds nothing |
| Progress.ScoreSumBounds | backend/src/main/java/kz/sayat/diploma_backend/course_module/service/implementations/CourseServiceImpl.java:238-244 | the module total lies between 0 and 100 times the number of quizzes |
| Progress.ModuleProgressBounds | backend/src/main/java/kz/sayat/diploma_backend/course_module/service/implementations/CourseServiceImpl.java:224-246 | module progress is a percentage between 0 and 100 |
| Progress.UnpassedQuizKeepsModuleBelowFull | backend/src/main/java/kz/sayat/diploma_backend/course_module/service/implementations/CourseServiceImpl.java:238-246 | a single quiz without a passed latest attempt keeps module progress strictly below 100 |
| Progress.FullModuleProgressMeansCompleted | backend/src/main/java/kz/sayat/diploma_backend/course_module/service/implementations/CourseServiceImpl.java:224-246 | progress 100 in a module implies that every quiz of it is passed |
| Progress.PerfectScoresGiveFullProgress | backend/src/main/java/kz/sayat/diploma_backend/course_module/service/implementations/CourseServiceImpl.java:238-246 | a passed latest attempt scoring 100 at every quiz gives module progress 100 |
| Progress.UnpassedQuizDilutes | backend/src/main/java/kz/sayat/diploma_backend/course_module/service/implementations/CourseServiceImpl.java:225 | the divisor counts every quiz: adding an unpassed quiz scales the progress by n/(n+1) |
| Progress.EmptyCourseIsCompletedAtZero | backend/src/main/java/kz/sayat/diploma_backend/course_module/service/implementations/CourseServiceImpl.java:215 | a course without modules has progress 0 and yet counts as completed |
| Progress.ProgressSumBounds | backend/src/main/java/kz/sayat/diploma_backend/course_module/service/implementations/CourseServiceImpl.java:211-213 | the course total lies between 0 and 100 times the number of modules |
| Progress.CourseProgressBounds | backend/src/main/java/kz/sayat/diploma_backend/course_module/service/implementations/CourseServiceImpl.java:206-215 | course progress is a percentage between 0 and 100 |
| Progress.ModuleBelowFullKeepsCourseBelowFull | backend/src/main/java/kz/sayat/diploma_backend/course_module/service/implementations/CourseServiceImpl.java:211-215 | one module below 100 keeps course progress strictly below 100 |
| Progress.FullCourseProgressMeansCompleted | backend/src/main/java/kz/sayat/diploma_backend/course_module/service/implementations/CourseServiceImpl.java:206-215 | course progress 100 implies the course is completed; the converse fails, since an empty course is completed at 0 |
| Progress.ProgressSumIsTotal | backend/src/main/java/kz/sayat/diploma_backend/course_module/service/implementations/CourseServiceImpl.java:211-213 | the accumulated course total is the plain sum of the list of module progresses |
| Progress.UniformModulesMean | backend/src/main/java/kz/sayat/diploma_backend/course_module/service/implementations/CourseServiceImpl.java:215 | the mean is unweighted: modules of equal progress give that progress, whatever their quiz counts |
| Progress.ScenarioOnePassedQuiz | backend/src/main/java/kz/sayat/diploma_backend/course_module/service/implementations/CourseServiceImpl.java:224-246 | with one of two quizzes passed at 80, progress is 40 and the course is not completed |
| Progress.ScenarioBothPassed | backend/src/main/java/kz/sayat/diploma_backend/course_module/service/implementations/CourseServiceImpl.java:173-192 | with both quizzes passed (80 and 100), progress is 90 and the course is completed |
| Progress.ScenarioLaterFailure | backend/src/main/java/kz/sayat/diploma_backend/course_module/service/implementations/CourseServiceImpl.java:183-187 | a later failed attempt overrides an earlier pass: progress drops to 40 and completion is lost |
| Service.ScenarioCatalogFacts | backend/src/main/java/kz/sayat/diploma_backend/course_module/service/implementations/CourseServiceImpl.java:206-215 | in the scenario store (one module, quizzes passed at 80 and 100) the course progress is 90 and the course is completed |
| Service.ScenarioProgressLatches | backend/src/main/java/kz/sayat/diploma_backend/course_module/service/implementations/CourseServiceImpl.java:206-221 | on that store, computing the course progress returns 90 and flips the enrollment row's completed flag to true |
| EnrollmentTable.IndexOf | backend/src/main/java/kz/sayat/diploma_backend/course_module/service/implementations/CourseServiceImpl.java:195-196 | finds the row of a key exactly when the key is enrolled; under unique keys it is the only such row |
| EnrollmentTable.CoursesOf | backend/src/main/java/kz/sayat/diploma_backend/course_module/service/implementations/CourseServiceImpl.java:158 | a course is listed exactly when the student has a row for it, and the list is no longer than the table |
| EnrollmentTable.InsertKeepsKeysUnique | backend/src/main/java/kz/sayat/diploma_backend/course_module/service/implementations/CourseServiceImpl.java:128-133 | inserting an absent key keeps keys unique, and the enrolled pairs grow by exactly that key |
| EnrollmentTable.LatchIsMonotone | backend/src/main/java/kz/sayat/diploma_backend/course_module/service/implementations/CourseServiceImpl.java:198-200 | the latch sets one row's flag, never clears a flag, keeps every key and leaves the other rows alone |
| EnrollmentTable.LatchKeepsKeysUnique | backend/src/main/java/kz/sayat/diploma_backend/course_module/service/implementations/CourseServiceImpl.java:199-200 | latching keeps the keys unique |
| EnrollmentTable.CoursesOfDistinct | backend/src/main/java/kz/sayat/diploma_backend/course_module/service/implementations/CourseServiceImpl.java:297 | under unique keys a student's course list has no repeats |
| Service.VisibilityTouchesOnlyFlag | backend/src/main/java/kz/sayat/diploma_backend/course_module/service/implementations/CourseServiceImpl.java:265-269 | setting visibility changes only the public flag of the one course; the set of courses is unchanged |
| Service.VisibilityLastCallWins | backend/src/main/java/kz/sayat/diploma_backend/course_module/service/implementations/CourseServiceImpl.java:278-282 | approve and disallow are idempotent, and of two calls the last one decides |
| Service.EditTouchesOnlyDetails | backend/src/main/java/kz/sayat/diploma_backend/course_module/service/implementations/CourseServiceImpl.java:285-290 | editing changes only the title and description of the one course |
| Service.Unfinished | backend/src/main/java/kz/sayat/diploma_backend/course_module/service/implementations/CourseServiceImpl.java:158-161 | a course is kept exactly when it is listed, stored, public and not completed by the student |
| Service.UnfinishedMember | backend/src/main/java/kz/sayat/diploma_backend/course_module/service/implementations/CourseServiceImpl.java:160 | every kept course is public and not completed |
| Service.CompletedAmong | backend/src/main/java/kz/sayat/diploma_backend/course_module/service/implementations/CourseServiceImpl.java:300 | a course is kept exactly when it is listed and completed by the student |
| Service.CompletedListingStep | backend/src/main/java/kz/sayat/diploma_backend/course_module/service/implementations/CourseServiceImpl.java:299-306 | one more stream element adds a summary exactly when its course is completed |
| Service.RefreshStep | backend/src/main/java/kz/sayat/diploma_backend/course_module/service/implementations/CourseServiceImpl.java:303 | the progress call for one more course latches the single row keyed by the student and that course, and only when the course is completed |
| Service.ListedAll | backend/src/main/java/kz/sayat/diploma_backend/course_module/service/implementations/CourseServiceImpl.java:297-307 | once every course of the student is visited, the listing holds exactly the completed ones and every row of the student is refreshed |
| Service.CourseService.CalculateModuleProgress | backend/src/main/java/kz/sayat/diploma_backend/course_module/service/implementations/CourseServiceImpl.java:224-246 | fails with StudentNotFound exactly when the module has quizzes and the student is unknown; otherwise returns the module progress (100 for no quizzes) |
| Service.CourseService.IsCourseCompleted | backend/src/main/java/kz/sayat/diploma_backend/course_module/service/implementations/CourseServiceImpl.java:173-192 | fails exactly for an unknown student, even for a module-less course; otherwise answers whether every quiz of every module has a passed latest attempt |
| Service.CourseService.AllQuizzesPassed | backend/src/main/java/kz/sayat/diploma_backend/course_module/service/implementations/CourseServiceImpl.java:182-188 | true exactly when every quiz of the module has a passed latest attempt |
| Service.CourseService.StatusUpdatedIsLatch | backend/src/main/java/kz/sayat/diploma_backend/course_module/service/implementations/CourseServiceImpl.java:194-202 | the completion update keeps unique keys and the length, never clears a flag, touches only the (s, c) row, and sets it when the course is completed |
| Service.CourseService.UpdateEnrollmentStatus | backend/src/main/java/kz/sayat/diploma_backend/course_module/service/implementations/CourseServiceImpl.java:194-202 | a missing row fails with EnrollmentNotFound and an unknown student with StudentNotFound; otherwise the row is latched exactly when the course is completed |
| Service.CourseService.CalculateCourseProgress | backend/src/main/java/kz/sayat/diploma_backend/course_module/service/implementations/CourseServiceImpl.java:206-221 | returns the mean module progress (0 with no modules), with the failures in source order; always runs the completion update |
| Service.CourseService.FindCourseById | backend/src/main/java/kz/sayat/diploma_backend/course_module/service/implementations/CourseServiceImpl.java:74-110 | an unknown course fails; a student gets the enrolled flag and the live progress of each module, a teacher the creator flag, and everyone else 0 per module |
| Service.CourseService.EnrollCourse | backend/src/main/java/kz/sayat/diploma_backend/course_module/service/implementations/CourseServiceImpl.java:116-134 | only a student may enroll in a stored course not yet enrolled; the new row has completed = false, and a failure leaves the table unchanged |
| Service.CourseService.Approve | backend/src/main/java/kz/sayat/diploma_backend/course_module/service/implementations/CourseServiceImpl.java:265-269 | an unknown course fails; otherwise only that course becomes public |
| Service.CourseService.Disallow | backend/src/main/java/kz/sayat/diploma_backend/course_module/service/implementations/CourseServiceImpl.java:278-282 | an unknown course fails; otherwise only that course becomes private |
| Service.CourseService.EditCourse | backend/src/main/java/kz/sayat/diploma_backend/course_module/service/implementations/CourseServiceImpl.java:285-290 | an unknown course fails; otherwise only the title and description of that course change |
| Service.CourseService.GetCourses | backend/src/main/java/kz/sayat/diploma_backend/course_module/service/implementations/CourseServiceImpl.java:255-262 | only public courses are listed: all of them when the search is absent or empty, and otherwise exactly those whose title matches |
| Service.CourseService.SelectUnfinished | backend/src/main/java/kz/sayat/diploma_backend/course_module/service/implementations/CourseServiceImpl.java:158-161 | keeps the public courses not completed, in order; fails exactly when the student is unknown and some listed course is public |
| Service.CourseService.SummarizeUnfinished | backend/src/main/java/kz/sayat/diploma_backend/course_module/service/implementations/CourseServiceImpl.java:163-170 | one summary per kept course, in order, with its live progress; the table is unchanged because none of the courses is completed |
| Service.CourseService.GetMyCourses | backend/src/main/java/kz/sayat/diploma_backend/course_module/service/implementations/CourseServiceImpl.java:150-171 | a non-student caller fails; otherwise lists the summaries of the student's public, uncompleted courses, and the enrollment table is unchanged |
| Service.CourseService.SummarizeIfCompleted | backend/src/main/java/kz/sayat/diploma_backend/course_module/service/implementations/CourseServiceImpl.java:300-306 | fails exactly for an unknown student; a completed course yields its summary and latches its row; otherwise yields nothing and changes nothing |
| Service.CourseService.ListNext | backend/src/main/java/kz/sayat/diploma_backend/course_module/service/implementations/CourseServiceImpl.java:299-306 | one more element of the stream keeps the listing and the table in step with the courses visited so far |
| Service.CourseService.GetCompletedCourses | backend/src/main/java/kz/sayat/diploma_backend/course_module/service/implementations/CourseServiceImpl.java:293-308 | an unresolved caller fails, and so does an unknown student with a course; otherwise lists the summaries of exactly the completed courses, and the only table change is that each of those rows is latched |
| Service.CourseService.ListCompleted | backend/src/main/java/kz/sayat/diploma_backend/course_module/service/implementations/CourseServiceImpl.java:297-307 | fails exactly when the student is unknown and has a course, leaving the table unchanged; otherwise the listing is complete and the rows are refreshed |

## Left out

- Authentication is not modelled. The caller is a `Caller` value: a
  student id, a teacher id, an authenticated user of any other role
  (`OtherRole`), or no authenticated principal (`Anonymous`). The lookups
  through the student and teacher services are taken as already resolved.
  FindCourseById treats `OtherRole` and `Anonymous` alike, as the source does
  (both flags false, 0 progress on every module).
- EnrollCourse, GetMyCourses: for `OtherRole` they fail with `NotAStudent`,
  as the source's not-a-student check does. Only these two fail for
  `Anonymous`, with `Unauthenticated`. The source has no check there and
  would fail with a null-pointer or cast error, which the model does not
  distinguish.
- GetMyCourses, GetCompletedCourses: the model does not assume that a
  resolved student is among the stored students. It therefore keeps the
  `StudentNotFound` paths of the later student lookups. In the source those
  paths cannot occur, because the student comes from the same repository
  within the same transaction.
- GetCompletedCourses: the lookup of the student by the caller's email is
  taken as an `Option` parameter. An unresolved caller fails with
  `StudentNotFound`.
- Persistence is not modelled: JPA, `save`, dirty checking and the
  transaction. Every modelled failure happens before the operation's first
  write, so a rollback has nothing to undo.
- Repositories return their rows in an unspecified order. The listings use
  table order.
- DTO mapping is not modelled. A summary keeps the id, title, description
  and progress. The course view keeps the stored course, the two flags and
  the per-module progress.
- GetCourses: the case-insensitive title containment is a
  caller-supplied predicate. The result is a set because the repository
  order is unspecified.
- Scores and progress are real numbers. The IEEE double rounding of the
  sums and quotients is not modelled.
- CalculateModuleProgress: the quiz count and the quiz list come from two
  repository queries. The model assumes both describe the same quizzes.
- Progress.LatestAttempt: when two attempts share the top attempt number,
  the repository's tie-break is unknown. The model keeps the earlier one.
  LatestAttemptUnique states the case where numbers do not repeat.
- FindCourseById: the creator flag compares the teacher ids by value. The
  id type of the entities is not part of this model, so a boxed-integer
  comparison by reference is not captured.
- The following operations do not touch progress, completion or the
  enrollment latch, and are not part of this model: `createCourse`,
  `deleteCourse`, `getAllCourses`, `getStudentForCourse` and
  `getPrivateCourses`.
- The exception classes are represented only by the `Error` kinds.
