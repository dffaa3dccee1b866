/**
 * Progress and completion of a student in a module and in a course, as
 * functions of the quiz structure and the recorded attempts.
 */
module Progress {
  import opened Entities

  /** Modules of a course as the module repository lists them; an unknown course has none. */
  function ModulesOf(courseModules: map<CourseId, seq<ModuleId>>, c: CourseId): seq<ModuleId>
  {
    if c in courseModules then courseModules[c] else []
  }

  /** Quizzes of a module as the quiz repository lists them; an unknown module has none. */
  function QuizzesOf(moduleQuizzes: map<ModuleId, seq<QuizId>>, m: ModuleId): seq<QuizId>
  {
    if m in moduleQuizzes then moduleQuizzes[m] else []
  }

  predicate IsAttemptOf(a: QuizAttempt, s: StudentId, q: QuizId)
  {
    a.studentId == s && a.quizId == q
  }

  /**
   * The student's latest attempt at a quiz: the recorded attempt with the
   * highest attempt number, or None when the student never tried the quiz.
   */
  function LatestAttempt(attempts: seq<QuizAttempt>, s: StudentId, q: QuizId): (r: Option<QuizAttempt>)
    ensures r.None? <==> forall i :: 0 <= i < |attempts| ==> !IsAttemptOf(attempts[i], s, q)
    ensures r.Some? ==> r.value in attempts && IsAttemptOf(r.value, s, q)
    ensures r.Some? ==> forall i :: 0 <= i < |attempts| && IsAttemptOf(attempts[i], s, q) ==>
                          attempts[i].attemptNumber <= r.value.attemptNumber
    decreases |attempts|
  {
    if |attempts| == 0 then None
    else
      var last := attempts[|attempts| - 1];
      var earlier := LatestAttempt(attempts[..|attempts| - 1], s, q);
      if !IsAttemptOf(last, s, q) then earlier
      else if earlier.Some? && last.attemptNumber <= earlier.value.attemptNumber then earlier
      else Some(last)
  }

  /** Attempt numbers of one student at one quiz never repeat. */
  ghost predicate DistinctAttemptNumbers(attempts: seq<QuizAttempt>)
  {
    forall i, j ::
      (0 <= i < |attempts| && 0 <= j < |attempts| && i != j &&
       attempts[i].studentId == attempts[j].studentId && attempts[i].quizId == attempts[j].quizId) ==>
        attempts[i].attemptNumber != attempts[j].attemptNumber
  }

  /** Under distinct numbering the latest attempt is the one attempt with the top number. */
  lemma LatestAttemptUnique(attempts: seq<QuizAttempt>, s: StudentId, q: QuizId, k: nat)
    requires DistinctAttemptNumbers(attempts)
    requires k < |attempts| && IsAttemptOf(attempts[k], s, q)
    requires forall i :: 0 <= i < |attempts| && IsAttemptOf(attempts[i], s, q) ==>
      attempts[i].attemptNumber <= attempts[k].attemptNumber
    ensures LatestAttempt(attempts, s, q) == Some(attempts[k])
  {
    var r := LatestAttempt(attempts, s, q);
    var j :| 0 <= j < |attempts| && attempts[j] == r.value;
    assert attempts[j].attemptNumber == attempts[k].attemptNumber;
  }

  /** The latest attempt exists and is passed. */
  predicate QuizPassed(attempts: seq<QuizAttempt>, s: StudentId, q: QuizId)
  {
    var latest := LatestAttempt(attempts, s, q);
    latest.Some? && latest.value.passed
  }

  /** What one quiz adds to the module total: the latest score if passed, else 0. */
  function Contribution(attempts: seq<QuizAttempt>, s: StudentId, q: QuizId): real
  {
    var latest := LatestAttempt(attempts, s, q);
    if latest.Some? && latest.value.passed then latest.value.score else 0.0
  }

  /** Sum of the contributions of a list of quizzes, accumulated front to back. */
  function ScoreSum(attempts: seq<QuizAttempt>, s: StudentId, qs: seq<QuizId>): real
    decreases |qs|
  {
    if |qs| == 0 then 0.0
    else ScoreSum(attempts, s, qs[..|qs| - 1]) + Contribution(attempts, s, qs[|qs| - 1])
  }

  /** Progress in a module: 100 for a quiz-less module, else the total over ALL its quizzes. */
  function ModuleProgress(attempts: seq<QuizAttempt>, s: StudentId, qs: seq<QuizId>): real
  {
    if |qs| == 0 then 100.0 else ScoreSum(attempts, s, qs) / (|qs| as real)
  }

  /** Sum of the module progresses of a list of modules, accumulated front to back. */
  function ProgressSum(attempts: seq<QuizAttempt>, moduleQuizzes: map<ModuleId, seq<QuizId>>,
                       s: StudentId, ms: seq<ModuleId>): real
    decreases |ms|
  {
    if |ms| == 0 then 0.0
    else ProgressSum(attempts, moduleQuizzes, s, ms[..|ms| - 1])
         + ModuleProgress(attempts, s, QuizzesOf(moduleQuizzes, ms[|ms| - 1]))
  }

  /** Progress in a course: 0 for a module-less course, else the plain mean over its modules. */
  function CourseProgress(attempts: seq<QuizAttempt>, moduleQuizzes: map<ModuleId, seq<QuizId>>,
                          s: StudentId, ms: seq<ModuleId>): real
  {
    if |ms| == 0 then 0.0 else ProgressSum(attempts, moduleQuizzes, s, ms) / (|ms| as real)
  }

  predicate ModuleCompleted(attempts: seq<QuizAttempt>, s: StudentId, qs: seq<QuizId>)
  {
    forall j :: 0 <= j < |qs| ==> QuizPassed(attempts, s, qs[j])
  }

  /** Every quiz of every module of the course has a passed latest attempt. */
  predicate CourseCompleted(attempts: seq<QuizAttempt>, moduleQuizzes: map<ModuleId, seq<QuizId>>,
                            s: StudentId, ms: seq<ModuleId>)
  {
    forall i :: 0 <= i < |ms| ==> ModuleCompleted(attempts, s, QuizzesOf(moduleQuizzes, ms[i]))
  }

  /** Some module of the list has at least one quiz. */
  predicate HasQuizzes(moduleQuizzes: map<ModuleId, seq<QuizId>>, ms: seq<ModuleId>)
  {
    exists i :: 0 <= i < |ms| && |QuizzesOf(moduleQuizzes, ms[i])| > 0
  }

  /** Scores are percentages. */
  predicate ScoresInRange(attempts: seq<QuizAttempt>)
  {
    forall i :: 0 <= i < |attempts| ==> 0.0 <= attempts[i].score <= 100.0
  }

  // ---------------------------------------------------------------------
  // Properties of module progress

  /** A quiz-less module is fully done on both measures. */
  lemma EmptyModuleIsFull(attempts: seq<QuizAttempt>, s: StudentId)
    ensures ModuleProgress(attempts, s, []) == 100.0
    ensures ModuleCompleted(attempts, s, [])
  {
  }

  lemma ContributionInRange(attempts: seq<QuizAttempt>, s: StudentId, q: QuizId)
    requires ScoresInRange(attempts)
    ensures 0.0 <= Contribution(attempts, s, q) <= 100.0
    ensures !QuizPassed(attempts, s, q) ==> Contribution(attempts, s, q) == 0.0
  {
    var latest := LatestAttempt(attempts, s, q);
    if latest.Some? {
      var i :| 0 <= i < |attempts| && attempts[i] == latest.value;
    }
  }

  lemma {:induction false} ScoreSumBounds(attempts: seq<QuizAttempt>, s: StudentId, qs: seq<QuizId>)
    requires ScoresInRange(attempts)
    ensures 0.0 <= ScoreSum(attempts, s, qs) <= 100.0 * (|qs| as real)
    decreases |qs|
  {
    if |qs| > 0 {
      ScoreSumBounds(attempts, s, qs[..|qs| - 1]);
      ContributionInRange(attempts, s, qs[|qs| - 1]);
    }
  }

  // Real arithmetic of a mean, kept apart from the definitions above.

  lemma MeanWithin(total: real, n: real, lo: real, hi: real)
    requires n > 0.0 && lo * n <= total <= hi * n
    ensures lo <= total / n <= hi
  {
  }

  lemma MeanBelow(total: real, n: real, hi: real)
    requires n > 0.0 && total < hi * n
    ensures total / n < hi
  {
  }

  lemma MeanOfEqual(v: real, n: real)
    requires n > 0.0
    ensures v * n / n == v
  {
  }

  lemma SumOfEqual(v: real, a: real, b: real, k: nat, n: nat)
    requires a == v * (k as real) && b == v && n == k + 1
    ensures a + b == v * (n as real)
  {
  }

  lemma ScaleStep(v: real, k: nat)
    ensures v * (k as real) + v == v * ((k + 1) as real)
  {
  }

  lemma MeanRescaled(total: real, n: real)
    requires n > 0.0
    ensures total / (n + 1.0) == total / n * n / (n + 1.0)
  {
  }

  /** With percentage scores, module progress is a percentage. */
  lemma ModuleProgressBounds(attempts: seq<QuizAttempt>, s: StudentId, qs: seq<QuizId>)
    requires ScoresInRange(attempts)
    ensures 0.0 <= ModuleProgress(attempts, s, qs) <= 100.0
  {
    if |qs| > 0 {
      ScoreSumBounds(attempts, s, qs);
      MeanWithin(ScoreSum(attempts, s, qs), |qs| as real, 0.0, 100.0);
    }
  }

  /** One quiz without a passed latest attempt keeps the total a full 100 short. */
  lemma {:induction false} ScoreSumShortfall(attempts: seq<QuizAttempt>, s: StudentId, qs: seq<QuizId>, j: nat)
    requires ScoresInRange(attempts)
    requires j < |qs| && !QuizPassed(attempts, s, qs[j])
    ensures ScoreSum(attempts, s, qs) <= 100.0 * ((|qs| - 1) as real)
    decreases |qs|
  {
    var init := qs[..|qs| - 1];
    if j == |qs| - 1 {
      ScoreSumBounds(attempts, s, init);
      ContributionInRange(attempts, s, qs[j]);
    } else {
      assert init[j] == qs[j];
      ScoreSumShortfall(attempts, s, init, j);
      ContributionInRange(attempts, s, qs[|qs| - 1]);
    }
  }

  /** A quiz without a passed latest attempt keeps the module below full progress. */
  lemma UnpassedQuizKeepsModuleBelowFull(attempts: seq<QuizAttempt>, s: StudentId, qs: seq<QuizId>, j: nat)
    requires ScoresInRange(attempts)
    requires j < |qs| && !QuizPassed(attempts, s, qs[j])
    ensures ModuleProgress(attempts, s, qs) < 100.0
  {
    ScoreSumShortfall(attempts, s, qs, j);
    MeanBelow(ScoreSum(attempts, s, qs), |qs| as real, 100.0);
  }

  /** Full module progress means every quiz of the module is passed. */
  lemma FullModuleProgressMeansCompleted(attempts: seq<QuizAttempt>, s: StudentId, qs: seq<QuizId>)
    requires ScoresInRange(attempts)
    requires ModuleProgress(attempts, s, qs) == 100.0
    ensures ModuleCompleted(attempts, s, qs)
  {
    if j :| 0 <= j < |qs| && !QuizPassed(attempts, s, qs[j]) {
      UnpassedQuizKeepsModuleBelowFull(attempts, s, qs, j);
      assert false;
    }
  }

  /** A perfect passed latest attempt at every quiz gives full module progress. */
  lemma {:induction false} PerfectScoresSum(attempts: seq<QuizAttempt>, s: StudentId, qs: seq<QuizId>)
    requires forall j :: 0 <= j < |qs| ==>
               QuizPassed(attempts, s, qs[j]) && LatestAttempt(attempts, s, qs[j]).value.score == 100.0
    ensures ScoreSum(attempts, s, qs) == 100.0 * (|qs| as real)
    decreases |qs|
  {
    if |qs| > 0 {
      var init := qs[..|qs| - 1];
      forall j | 0 <= j < |init|
        ensures QuizPassed(attempts, s, init[j]) && LatestAttempt(attempts, s, init[j]).value.score == 100.0
      {
        assert init[j] == qs[j];
      }
      PerfectScoresSum(attempts, s, init);
      assert Contribution(attempts, s, qs[|qs| - 1]) == 100.0;
      ScaleStep(100.0, |init|);
    }
  }

  lemma PerfectScoresGiveFullProgress(attempts: seq<QuizAttempt>, s: StudentId, qs: seq<QuizId>)
    requires forall j :: 0 <= j < |qs| ==>
               QuizPassed(attempts, s, qs[j]) && LatestAttempt(attempts, s, qs[j]).value.score == 100.0
    ensures ModuleProgress(attempts, s, qs) == 100.0
  {
    PerfectScoresSum(attempts, s, qs);
    if |qs| > 0 {
      MeanOfEqual(100.0, |qs| as real);
    }
  }

  /**
   * A further quiz without a passed latest attempt still counts in the
   * divisor: the module's progress shrinks by the factor n / (n + 1).
   */
  lemma UnpassedQuizDilutes(attempts: seq<QuizAttempt>, s: StudentId, qs: seq<QuizId>, q: QuizId)
    requires |qs| > 0 && !QuizPassed(attempts, s, q)
    ensures ModuleProgress(attempts, s, qs + [q])
         == ModuleProgress(attempts, s, qs) * (|qs| as real) / ((|qs| + 1) as real)
  {
    var qs' := qs + [q];
    assert qs'[..|qs'| - 1] == qs;
    assert ScoreSum(attempts, s, qs') == ScoreSum(attempts, s, qs);
    MeanRescaled(ScoreSum(attempts, s, qs), |qs| as real);
  }

  // ---------------------------------------------------------------------
  // Properties of course progress and completion

  /**
   * The asymmetry of the empty cases: a module-less course has progress 0
   * and is nevertheless completed.
   */
  lemma EmptyCourseIsCompletedAtZero(attempts: seq<QuizAttempt>, moduleQuizzes: map<ModuleId, seq<QuizId>>, s: StudentId)
    ensures CourseProgress(attempts, moduleQuizzes, s, []) == 0.0
    ensures CourseCompleted(attempts, moduleQuizzes, s, [])
  {
  }

  lemma {:induction false} ProgressSumBounds(attempts: seq<QuizAttempt>, moduleQuizzes: map<ModuleId, seq<QuizId>>,
                                             s: StudentId, ms: seq<ModuleId>)
    requires ScoresInRange(attempts)
    ensures 0.0 <= ProgressSum(attempts, moduleQuizzes, s, ms) <= 100.0 * (|ms| as real)
    decreases |ms|
  {
    if |ms| > 0 {
      ProgressSumBounds(attempts, moduleQuizzes, s, ms[..|ms| - 1]);
      ModuleProgressBounds(attempts, s, QuizzesOf(moduleQuizzes, ms[|ms| - 1]));
    }
  }

  /** With percentage scores, course progress is a percentage. */
  lemma CourseProgressBounds(attempts: seq<QuizAttempt>, moduleQuizzes: map<ModuleId, seq<QuizId>>,
                             s: StudentId, ms: seq<ModuleId>)
    requires ScoresInRange(attempts)
    ensures 0.0 <= CourseProgress(attempts, moduleQuizzes, s, ms) <= 100.0
  {
    if |ms| > 0 {
      ProgressSumBounds(attempts, moduleQuizzes, s, ms);
      MeanWithin(ProgressSum(attempts, moduleQuizzes, s, ms), |ms| as real, 0.0, 100.0);
    }
  }

  /** One module below 100 keeps the course total strictly below a full 100 per module. */
  lemma {:induction false} ProgressSumShortfall(attempts: seq<QuizAttempt>, moduleQuizzes: map<ModuleId, seq<QuizId>>,
                                                s: StudentId, ms: seq<ModuleId>, j: nat)
    requires ScoresInRange(attempts)
    requires j < |ms| && ModuleProgress(attempts, s, QuizzesOf(moduleQuizzes, ms[j])) < 100.0
    ensures ProgressSum(attempts, moduleQuizzes, s, ms) < 100.0 * (|ms| as real)
    decreases |ms|
  {
    var init := ms[..|ms| - 1];
    if j == |ms| - 1 {
      ProgressSumBounds(attempts, moduleQuizzes, s, init);
    } else {
      assert init[j] == ms[j];
      ProgressSumShortfall(attempts, moduleQuizzes, s, init, j);
      ModuleProgressBounds(attempts, s, QuizzesOf(moduleQuizzes, ms[|ms| - 1]));
    }
  }

  /** A module below full progress keeps the course below full progress. */
  lemma ModuleBelowFullKeepsCourseBelowFull(attempts: seq<QuizAttempt>, moduleQuizzes: map<ModuleId, seq<QuizId>>,
                                            s: StudentId, ms: seq<ModuleId>, j: nat)
    requires ScoresInRange(attempts)
    requires j < |ms| && ModuleProgress(attempts, s, QuizzesOf(moduleQuizzes, ms[j])) < 100.0
    ensures CourseProgress(attempts, moduleQuizzes, s, ms) < 100.0
  {
    ProgressSumShortfall(attempts, moduleQuizzes, s, ms, j);
    MeanBelow(ProgressSum(attempts, moduleQuizzes, s, ms), |ms| as real, 100.0);
  }

  /** Full course progress means the course is completed. */
  lemma FullCourseProgressMeansCompleted(attempts: seq<QuizAttempt>, moduleQuizzes: map<ModuleId, seq<QuizId>>,
                                         s: StudentId, ms: seq<ModuleId>)
    requires ScoresInRange(attempts)
    requires CourseProgress(attempts, moduleQuizzes, s, ms) == 100.0
    ensures CourseCompleted(attempts, moduleQuizzes, s, ms)
  {
    forall i | 0 <= i < |ms|
      ensures ModuleCompleted(attempts, s, QuizzesOf(moduleQuizzes, ms[i]))
    {
      var qs := QuizzesOf(moduleQuizzes, ms[i]);
      ModuleProgressBounds(attempts, s, qs);
      if ModuleProgress(attempts, s, qs) < 100.0 {
        ModuleBelowFullKeepsCourseBelowFull(attempts, moduleQuizzes, s, ms, i);
        assert false;
      }
      FullModuleProgressMeansCompleted(attempts, s, qs);
    }
  }

  /** Sum of a sequence of reals. */
  function Total(xs: seq<real>): real
    decreases |xs|
  {
    if |xs| == 0 then 0.0 else Total(xs[..|xs| - 1]) + xs[|xs| - 1]
  }

  lemma {:induction false} TotalOfEqual(xs: seq<real>, v: real)
    requires forall i :: 0 <= i < |xs| ==> xs[i] == v
    ensures Total(xs) == v * (|xs| as real)
    decreases |xs|
  {
    if |xs| > 0 {
      var init := xs[..|xs| - 1];
      TotalOfEqual(init, v);
      SumOfEqual(v, Total(init), xs[|xs| - 1], |init|, |xs|);
    }
  }

  /** The progress of each module, in order. */
  function ModuleProgresses(attempts: seq<QuizAttempt>, moduleQuizzes: map<ModuleId, seq<QuizId>>,
                            s: StudentId, ms: seq<ModuleId>): (r: seq<real>)
    ensures |r| == |ms|
    ensures forall i :: 0 <= i < |ms| ==> r[i] == ModuleProgress(attempts, s, QuizzesOf(moduleQuizzes, ms[i]))
  {
    seq(|ms|, i requires 0 <= i < |ms| => ModuleProgress(attempts, s, QuizzesOf(moduleQuizzes, ms[i])))
  }

  lemma {:induction false} ProgressSumIsTotal(attempts: seq<QuizAttempt>, moduleQuizzes: map<ModuleId, seq<QuizId>>,
                                              s: StudentId, ms: seq<ModuleId>)
    ensures ProgressSum(attempts, moduleQuizzes, s, ms) == Total(ModuleProgresses(attempts, moduleQuizzes, s, ms))
    decreases |ms|
  {
    if |ms| > 0 {
      var init := ms[..|ms| - 1];
      ProgressSumIsTotal(attempts, moduleQuizzes, s, init);
      assert ModuleProgresses(attempts, moduleQuizzes, s, ms)[..|ms| - 1] == ModuleProgresses(attempts, moduleQuizzes, s, init);
    }
  }

  /** The mean is unweighted: modules of equal progress give that progress, whatever their quiz counts. */
  lemma UniformModulesMean(attempts: seq<QuizAttempt>, moduleQuizzes: map<ModuleId, seq<QuizId>>,
                           s: StudentId, ms: seq<ModuleId>, v: real)
    requires |ms| > 0
    requires forall i :: 0 <= i < |ms| ==> ModuleProgress(attempts, s, QuizzesOf(moduleQuizzes, ms[i])) == v
    ensures CourseProgress(attempts, moduleQuizzes, s, ms) == v
  {
    ProgressSumIsTotal(attempts, moduleQuizzes, s, ms);
    TotalOfEqual(ModuleProgresses(attempts, moduleQuizzes, s, ms), v);
    MeanOfEqual(v, |ms| as real);
  }

  // ---------------------------------------------------------------------
  // A worked scenario: one course, one module, quizzes 10 and 11, student 1

  lemma ScenarioOnePassedQuiz()
    ensures var attempts := [QuizAttempt(1, 10, 1, 80.0, true)];
      ModuleProgress(attempts, 1, [10, 11]) == 40.0
      && !CourseCompleted(attempts, map[5 := [10, 11]], 1, [5])
  {
    var attempts := [QuizAttempt(1, 10, 1, 80.0, true)];
    var qs := [10, 11];
    assert LatestAttempt(attempts, 1, 10) == Some(attempts[0]) by {
      assert attempts[..0] == [];
    }
    assert LatestAttempt(attempts, 1, 11).None?;
    assert ScoreSum(attempts, 1, qs) == 80.0 by {
      assert qs[..1] == [10] && [10][..0] == [];
    }
    assert !ModuleCompleted(attempts, 1, qs) by {
      assert !QuizPassed(attempts, 1, qs[1]);
    }
    assert QuizzesOf(map[5 := qs], [5][0]) == qs;
  }

  lemma ScenarioBothPassed()
    ensures var attempts := [QuizAttempt(1, 10, 1, 80.0, true), QuizAttempt(1, 11, 1, 100.0, true)];
      ModuleProgress(attempts, 1, [10, 11]) == 90.0
      && CourseCompleted(attempts, map[5 := [10, 11]], 1, [5])
  {
    var attempts := [QuizAttempt(1, 10, 1, 80.0, true), QuizAttempt(1, 11, 1, 100.0, true)];
    var qs := [10, 11];
    assert LatestAttempt(attempts, 1, 10) == Some(attempts[0]) by {
      assert attempts[..1] == [attempts[0]] && attempts[..1][..0] == [];
    }
    assert LatestAttempt(attempts, 1, 11) == Some(attempts[1]) by {
      assert LatestAttempt(attempts[..1], 1, 11).None?;
    }
    assert ScoreSum(attempts, 1, qs) == 180.0 by {
      assert qs[..1] == [10] && [10][..0] == [];
    }
    assert ModuleCompleted(attempts, 1, qs);
    assert QuizzesOf(map[5 := qs], [5][0]) == qs;
  }

  /** A later failed attempt with a higher number replaces a passed one. */
  lemma ScenarioLaterFailure()
    ensures var attempts := [QuizAttempt(1, 10, 1, 80.0, true), QuizAttempt(1, 11, 1, 100.0, true),
                             QuizAttempt(1, 11, 2, 30.0, false)];
      ModuleProgress(attempts, 1, [10, 11]) == 40.0
      && !CourseCompleted(attempts, map[5 := [10, 11]], 1, [5])
  {
    var attempts := [QuizAttempt(1, 10, 1, 80.0, true), QuizAttempt(1, 11, 1, 100.0, true),
                     QuizAttempt(1, 11, 2, 30.0, false)];
    var qs := [10, 11];
    var two := attempts[..2];
    assert two == [attempts[0], attempts[1]];
    assert LatestAttempt(two, 1, 10) == Some(attempts[0]) by {
      assert two[..1] == [attempts[0]] && two[..1][..0] == [];
    }
    assert LatestAttempt(attempts, 1, 10) == Some(attempts[0]);
    assert LatestAttempt(two, 1, 11) == Some(attempts[1]) by {
      assert two[..1] == [attempts[0]];
      assert LatestAttempt(two[..1], 1, 11).None?;
    }
    assert LatestAttempt(attempts, 1, 11) == Some(attempts[2]);
    assert ScoreSum(attempts, 1, qs) == 80.0 by {
      assert qs[..1] == [10] && [10][..0] == [];
    }
    assert !ModuleCompleted(attempts, 1, qs) by {
      assert !QuizPassed(attempts, 1, qs[1]);
    }
    assert QuizzesOf(map[5 := qs], [5][0]) == qs;
  }
}
