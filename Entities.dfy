/**
 * Entities of the course domain as the course service sees them once the
 * repositories have loaded them, plus the caller identity and the error
 * kinds the service raises.
 */
module Entities {

  type StudentId = int
  type TeacherId = int
  type CourseId = int
  type ModuleId = int
  type QuizId = int

  /** A stored course: the fields the service reads or overwrites. */
  datatype Course = Course(title: string, description: string, isPublic: bool, teacherId: TeacherId)

  /** One recorded attempt of a student at a quiz. */
  datatype QuizAttempt = QuizAttempt(
    studentId: StudentId,
    quizId: QuizId,
    attemptNumber: int,
    score: real,
    passed: bool)

  /**
   * The caller: an authenticated student or teacher, an authenticated user
   * of any other role, or no authenticated principal.
   */
  datatype Caller = Student(id: StudentId) | Teacher(id: TeacherId) | OtherRole | Anonymous

  /** The failures the service raises. */
  datatype Error =
    | CourseNotFound
    | EnrollmentNotFound
    | StudentNotFound
    | NotAStudent       // an authenticated caller whose user is not a student
    | Unauthenticated   // no authenticated principal at all
    | AlreadyEnrolled

  datatype Option<T> = None | Some(value: T)

  /** Outcome of an operation that returns a value. */
  datatype Result<T> = Ok(value: T) | Err(error: Error)

  /** Outcome of an operation that returns nothing. */
  datatype Outcome = Done | Failed(error: Error)
}
