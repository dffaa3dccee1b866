/**
 * The enrollment table: one row per (student, course) pair carrying the
 * course-completed flag, kept in table order.
 */
module EnrollmentTable {
  import opened Entities

  datatype Enrollment = Enrollment(studentId: StudentId, courseId: CourseId, completed: bool)

  predicate HasKey(e: Enrollment, s: StudentId, c: CourseId)
  {
    e.studentId == s && e.courseId == c
  }

  /** Some row of the table is keyed (s, c). */
  predicate Enrolled(t: seq<Enrollment>, s: StudentId, c: CourseId)
  {
    exists i :: 0 <= i < |t| && HasKey(t[i], s, c)
  }

  /** The composite key (studentId, courseId) identifies at most one row. */
  predicate KeysUnique(t: seq<Enrollment>)
  {
    forall i, j :: 0 <= i < |t| && 0 <= j < |t| && i != j ==>
      !HasKey(t[j], t[i].studentId, t[i].courseId)
  }

  /** Position of the row keyed (s, c), if any. */
  function IndexOf(t: seq<Enrollment>, s: StudentId, c: CourseId): (r: Option<nat>)
    ensures r.None? <==> !Enrolled(t, s, c)
    ensures r.Some? ==> r.value < |t| && HasKey(t[r.value], s, c)
    ensures r.Some? && KeysUnique(t) ==>
      forall i :: 0 <= i < |t| && HasKey(t[i], s, c) ==> i == r.value
    decreases |t|
  {
    if |t| == 0 then None
    else if HasKey(t[0], s, c) then Some(0)
    else
      match IndexOf(t[1..], s, c)
      case None => None
      case Some(k) => Some(k + 1)
  }

  /** The courses of a student, in table order: the rows a join on studentId yields. */
  function CoursesOf(t: seq<Enrollment>, s: StudentId): (r: seq<CourseId>)
    ensures forall c :: c in r <==> Enrolled(t, s, c)
    ensures |r| <= |t|
    decreases |t|
  {
    if |t| == 0 then []
    else
      var rest := CoursesOf(t[1..], s);
      assert forall c :: Enrolled(t, s, c) <==> HasKey(t[0], s, c) || Enrolled(t[1..], s, c) by {
        forall c | Enrolled(t, s, c) ensures HasKey(t[0], s, c) || Enrolled(t[1..], s, c) {
          var i :| 0 <= i < |t| && HasKey(t[i], s, c);
          if i > 0 { assert HasKey(t[1..][i - 1], s, c); }
        }
        forall c | Enrolled(t[1..], s, c) ensures Enrolled(t, s, c) {
          var i :| 0 <= i < |t[1..]| && HasKey(t[1..][i], s, c);
          assert HasKey(t[i + 1], s, c);
        }
      }
      if t[0].studentId == s then [t[0].courseId] + rest else rest
  }

  /** Enrolling appends a row with completed = false. */
  function Insert(t: seq<Enrollment>, s: StudentId, c: CourseId): seq<Enrollment>
  {
    t + [Enrollment(s, c, false)]
  }

  /** Setting the completed flag of one row: the latch. */
  function Latch(t: seq<Enrollment>, i: nat): seq<Enrollment>
    requires i < |t|
  {
    t[i := t[i].(completed := true)]
  }

  /** Inserting a key that is absent keeps keys unique, and the new pair is then enrolled. */
  lemma InsertKeepsKeysUnique(t: seq<Enrollment>, s: StudentId, c: CourseId)
    requires KeysUnique(t) && !Enrolled(t, s, c)
    ensures KeysUnique(Insert(t, s, c))
    ensures Enrolled(Insert(t, s, c), s, c)
    ensures forall s', c' :: Enrolled(Insert(t, s, c), s', c') <==> Enrolled(t, s', c') || (s' == s && c' == c)
  {
    var t' := Insert(t, s, c);
    assert HasKey(t'[|t|], s, c);
    forall s', c' | Enrolled(t', s', c') && !(s' == s && c' == c) ensures Enrolled(t, s', c') {
      var i :| 0 <= i < |t'| && HasKey(t'[i], s', c');
      assert i < |t| && HasKey(t[i], s', c');
    }
    forall s', c' | Enrolled(t, s', c') ensures Enrolled(t', s', c') {
      var i :| 0 <= i < |t| && HasKey(t[i], s', c');
      assert HasKey(t'[i], s', c');
    }
  }

  /** The latch changes only the flag of one row, and only from false to true. */
  lemma LatchIsMonotone(t: seq<Enrollment>, i: nat)
    requires i < |t|
    ensures |Latch(t, i)| == |t|
    ensures Latch(t, i)[i].completed
    ensures forall k :: 0 <= k < |t| ==>
      HasKey(Latch(t, i)[k], t[k].studentId, t[k].courseId) && (t[k].completed ==> Latch(t, i)[k].completed)
    ensures forall k :: 0 <= k < |t| && k != i ==> Latch(t, i)[k] == t[k]
  {
  }

  /** Latching keeps the key set, so keys stay unique. */
  lemma LatchKeepsKeysUnique(t: seq<Enrollment>, i: nat)
    requires i < |t| && KeysUnique(t)
    ensures KeysUnique(Latch(t, i))
  {
    var t' := Latch(t, i);
    assert forall k :: 0 <= k < |t| ==> t'[k].studentId == t[k].studentId && t'[k].courseId == t[k].courseId;
  }

  /** Under unique keys a student's course list has no repeats. */
  lemma {:induction false} CoursesOfDistinct(t: seq<Enrollment>, s: StudentId)
    requires KeysUnique(t)
    ensures forall a, b :: 0 <= a < b < |CoursesOf(t, s)| ==> CoursesOf(t, s)[a] != CoursesOf(t, s)[b]
    decreases |t|
  {
    if |t| > 0 {
      var rest := CoursesOf(t[1..], s);
      assert KeysUnique(t[1..]) by {
        forall i, j | 0 <= i < |t[1..]| && 0 <= j < |t[1..]| && i != j
          ensures !HasKey(t[1..][j], t[1..][i].studentId, t[1..][i].courseId)
        {
          assert t[1..][i] == t[i + 1] && t[1..][j] == t[j + 1];
        }
      }
      CoursesOfDistinct(t[1..], s);
      if t[0].studentId == s {
        assert !Enrolled(t[1..], s, t[0].courseId) by {
          forall i | 0 <= i < |t[1..]| ensures !HasKey(t[1..][i], s, t[0].courseId) {
            assert t[1..][i] == t[i + 1];
          }
        }
      }
    }
  }
}
