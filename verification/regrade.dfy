/**
 * Keeping the grades table in step with the attempts (locallib.php): saving
 * one user's best grade, deleting an attempt, the bulk recompute of every
 * user's grade, changing the quiz's maximum grade and recomputing its total
 * of marks.
 *
 * The grades table of one quiz is a map from user id to the stored grade.
 */
module Regrade {
  import opened Wrappers
  import opened Grades

  type GradeTable = map<nat, real>

  /** The stored grade of `user`, NULL when there is no row. */
  function Stored(grades: GradeTable, user: nat): Option<real> {
    if user in grades then Some(grades[user]) else None
  }

  /** Both NULL, or both present with the same value. */
  predicate SameGrade(a: Option<real>, b: Option<real>) {
    a.Some? == b.Some? && (a.Some? ==> a.value == b.value)
  }

  function Abs(x: real): real {
    if x < 0.0 then -x else x
  }

  // ---------------------------------------------------------------------
  // One user (extendedquiz_save_best_grade).

  /** The grade the per-user path computes: finished or abandoned attempts, no previews, rescaled. */
  function UserBest(q: QuizGrading, table: seq<Attempt>, user: nat): Option<real> {
    Rescale(BestGrade(q.how, UserAttempts(table, q.id, user, FinishedStates, false)), q.grade, q.sumGrades)
  }

  /** A NULL best grade deletes the user's row; otherwise the row is updated or inserted. */
  function SaveBestGrade(q: QuizGrading, table: seq<Attempt>, grades: GradeTable, user: nat): (r: GradeTable)
    ensures Stored(r, user) == UserBest(q, table, user)
    ensures forall u :: u != user ==> Stored(r, u) == Stored(grades, u)
  {
    var best := UserBest(q, table, user);
    if best.None? then grades - {user} else grades[user := best.value]
  }

  /** The raw mark any grading method picks is one a graded attempt carries, or lies between two of them. */
  lemma BestGradeWithin(how: GradeMethod, s: seq<Attempt>, lo: real, hi: real)
    requires forall i :: 0 <= i < |s| && s[i].sumGrades.Some? ==> lo <= s[i].sumGrades.value <= hi
    ensures BestGrade(how, s).Some? ==> lo <= BestGrade(how, s).value <= hi
  {
    HighestIsMaximum(s);
    match how
    case Average =>
      if BestGrade(Average, s).Some? {
        AverageBetweenMarks(s, lo);
      }
    case _ =>
  }

  /**
   * In a graded quiz whose attempts score between 0 and the total of marks,
   * the saved grade lies between 0 and the quiz's maximum grade.
   */
  lemma SavedGradeWithinMaximum(q: QuizGrading, table: seq<Attempt>, grades: GradeTable, user: nat)
    requires HasGrades(q.grade, q.sumGrades)
    requires forall a :: a in table && a.sumGrades.Some? ==> 0.0 <= a.sumGrades.value <= q.sumGrades
    ensures user in SaveBestGrade(q, table, grades, user) ==> 0.0 <= SaveBestGrade(q, table, grades, user)[user] <= q.grade
  {
    var s := UserAttempts(table, q.id, user, FinishedStates, false);
    assert forall i :: 0 <= i < |s| ==> s[i] in table;
    BestGradeWithin(q.how, s, 0.0, q.sumGrades);
    var raw := BestGrade(q.how, s);
    if raw.Some? {
      HasGradesBoundsRescale(raw.value, q.grade, q.sumGrades);
    }
  }

  // ---------------------------------------------------------------------
  // Deleting an attempt (extendedquiz_delete_attempt).

  datatype Store = Store(attempts: seq<Attempt>, grades: GradeTable)

  function RemoveAttempt(table: seq<Attempt>, id: nat): (r: seq<Attempt>)
    ensures forall a :: a in r <==> a in table && a.id != id
  {
    if |table| == 0 then []
    else
      var rest := RemoveAttempt(table[1..], id);
      assert forall a :: a in table <==> a == table[0] || a in table[1..];
      if table[0].id == id then rest else [table[0]] + rest
  }

  /** Whether any attempt of `user` at `quiz` is left, in any state, previews included. */
  predicate HasUserAttempt(table: seq<Attempt>, quiz: nat, user: nat) {
    exists a :: a in table && a.quiz == quiz && a.userId == user
  }

  /**
   * Deleting an attempt of another quiz does nothing. Otherwise the attempt
   * goes, and the owner's grade row is dropped when no attempt of theirs is
   * left, or else their best grade is saved again.
   */
  function DeleteAttempt(q: QuizGrading, st: Store, attempt: Attempt): (r: Store)
    ensures attempt.quiz != q.id ==> r == st
    ensures attempt.quiz == q.id ==> forall a :: a in r.attempts <==> a in st.attempts && a.id != attempt.id
    ensures forall u :: u != attempt.userId ==> Stored(r.grades, u) == Stored(st.grades, u)
  {
    if attempt.quiz != q.id then st
    else
      var rest := RemoveAttempt(st.attempts, attempt.id);
      var user := attempt.userId;
      if !HasUserAttempt(rest, q.id, user) then Store(rest, st.grades - {user})
      else Store(rest, SaveBestGrade(q, rest, st.grades, user))
  }

  /** No attempts means no best grade, whatever the method. */
  lemma NoAttemptsNoGrade(how: GradeMethod)
    ensures BestGrade(how, []) == None
  {
    assert Marks([]) == [];
  }

  lemma NoneLeftNoneSelected(table: seq<Attempt>, quiz: nat, user: nat)
    requires !HasUserAttempt(table, quiz, user)
    ensures UserAttempts(table, quiz, user, FinishedStates, false) == []
  {
    NothingSelected(table, quiz, user, FinishedStates, false);
  }

  /** The shortcut of dropping the row agrees with recomputing: afterwards the owner's row is exactly their best grade. */
  lemma DeleteAttemptRegrades(q: QuizGrading, st: Store, attempt: Attempt)
    requires attempt.quiz == q.id
    ensures var r := DeleteAttempt(q, st, attempt);
            Stored(r.grades, attempt.userId) == UserBest(q, r.attempts, attempt.userId)
  {
    var rest := RemoveAttempt(st.attempts, attempt.id);
    if !HasUserAttempt(rest, q.id, attempt.userId) {
      NoneLeftNoneSelected(rest, q.id, attempt.userId);
      NoAttemptsNoGrade(q.how);
    }
  }

  // ---------------------------------------------------------------------
  // The bulk recompute (extendedquiz_update_all_final_grades).

  /** The attempts the bulk query aggregates: finished only, no previews. */
  function Eligible(table: seq<Attempt>, quiz: nat, user: nat): (r: seq<Attempt>)
    ensures forall a :: a in r <==> a in table && a.quiz == quiz && a.userId == user && a.state == Finished && !a.preview
    ensures |r| <= |table|
  {
    if |table| == 0 then []
    else
      var rest := Eligible(table[1..], quiz, user);
      assert forall a :: a in table <==> a == table[0] || a in table[1..];
      var a := table[0];
      if a.quiz == quiz && a.userId == user && a.state == Finished && !a.preview then [a] + rest else rest
  }

  /** SQL MAX of two values: NULL is ignored. */
  function LargerOf(a: Option<real>, b: Option<real>): Option<real> {
    match (a, b)
    case (None, _) => b
    case (_, None) => a
    case (Some(x), Some(y)) => if x >= y then a else b
  }

  /** SQL MAX over the raw-mark column. */
  function ColumnMax(rows: seq<Attempt>): Option<real> {
    if |rows| == 0 then None else LargerOf(rows[0].sumGrades, ColumnMax(rows[1..]))
  }

  /** SQL MIN over the attempt-number column. */
  function MinNumber(rows: seq<Attempt>): (n: nat)
    requires |rows| > 0
    ensures exists i :: 0 <= i < |rows| && rows[i].number == n
    ensures forall i :: 0 <= i < |rows| ==> n <= rows[i].number
  {
    if |rows| == 1 then rows[0].number
    else
      var m := MinNumber(rows[1..]);
      assert forall i :: 1 <= i < |rows| ==> rows[i] == rows[1..][i - 1];
      if rows[0].number <= m then rows[0].number else m
  }

  /** SQL MAX over the attempt-number column. */
  function MaxNumber(rows: seq<Attempt>): (n: nat)
    requires |rows| > 0
    ensures exists i :: 0 <= i < |rows| && rows[i].number == n
    ensures forall i :: 0 <= i < |rows| ==> rows[i].number <= n
  {
    if |rows| == 1 then rows[0].number
    else
      var m := MaxNumber(rows[1..]);
      assert forall i :: 1 <= i < |rows| ==> rows[i] == rows[1..][i - 1];
      if rows[0].number >= m then rows[0].number else m
  }

  /** The rows with a given attempt number. */
  function AtNumber(rows: seq<Attempt>, n: nat): (r: seq<Attempt>)
    ensures forall a :: a in r <==> a in rows && a.number == n
    ensures (forall i :: 0 <= i < |rows| ==> rows[i].number != n) ==> r == []
  {
    if |rows| == 0 then []
    else
      var rest := AtNumber(rows[1..], n);
      assert forall a :: a in rows <==> a == rows[0] || a in rows[1..];
      if rows[0].number == n then [rows[0]] + rest else rest
  }

  /** The per-user aggregate of the bulk query, before scaling. */
  function Aggregate(how: GradeMethod, rows: seq<Attempt>): (r: Option<real>)
    ensures |rows| == 0 ==> r.None?
    // MAX and AVG are NULL exactly when no row is graded.
    ensures how == Highest || how == Average ==> (r.None? <==> forall i :: 0 <= i < |rows| ==> rows[i].sumGrades.None?)
    // Every method but AVG picks the mark of one of the rows.
    ensures how != Average && r.Some? ==> exists i :: 0 <= i < |rows| && rows[i].sumGrades == r
  {
    match how
    case Highest =>
      ColumnMaxIsLargest(rows);
      ColumnMax(rows)
    case Average =>
      var vs := Marks(rows);
      if |vs| == 0 then None else Some(Mean(vs))
    case First =>
      if |rows| == 0 then None
      else
        var at := AtNumber(rows, MinNumber(rows));
        ColumnMaxPicksRow(rows, at);
        ColumnMax(at)
    case Last =>
      if |rows| == 0 then None
      else
        var at := AtNumber(rows, MaxNumber(rows));
        ColumnMaxPicksRow(rows, at);
        ColumnMax(at)
  }

  /** MAX over some of the rows is the mark of one of the rows. */
  lemma ColumnMaxPicksRow(rows: seq<Attempt>, sub: seq<Attempt>)
    requires forall a :: a in sub ==> a in rows
    ensures ColumnMax(sub).Some? ==> exists i :: 0 <= i < |rows| && rows[i].sumGrades == ColumnMax(sub)
  {
    ColumnMaxIsLargest(sub);
    if ColumnMax(sub).Some? {
      var j :| 0 <= j < |sub| && sub[j].sumGrades == ColumnMax(sub);
      assert sub[j] in rows;
    }
  }

  /**
   * The new grade of a user: NULL when they have no eligible attempt (the
   * outer join finds nothing); the constant 0 when the total of marks is
   * negligible; otherwise the aggregate times grade/sumgrades.
   */
  function NewGrade(q: QuizGrading, table: seq<Attempt>, user: nat): (r: Option<real>)
    ensures |Eligible(table, q.id, user)| == 0 ==> r.None?
    ensures |Eligible(table, q.id, user)| > 0 && q.sumGrades < Epsilon ==> r == Some(0.0)
    ensures |Eligible(table, q.id, user)| > 0 && q.sumGrades >= Epsilon ==>
              (r.None? <==> Aggregate(q.how, Eligible(table, q.id, user)).None?)
  {
    var rows := Eligible(table, q.id, user);
    if |rows| == 0 then None
    else if q.sumGrades >= Epsilon then Scaled(Aggregate(q.how, rows), q.grade / q.sumGrades)
    else Some(0.0)
  }

  /** With a non-negligible total the new grade is the per-user rescaling of the aggregate. */
  lemma NewGradeIsRescaled(q: QuizGrading, table: seq<Attempt>, user: nat)
    requires q.sumGrades >= Epsilon
    ensures SameGrade(NewGrade(q, table, user), Rescale(Aggregate(q.how, Eligible(table, q.id, user)), q.grade, q.sumGrades))
  {
    var rows := Eligible(table, q.id, user);
    if |rows| > 0 {
      ScaledIsRescale(Aggregate(q.how, rows), q.grade, q.sumGrades);
    } else {
      assert Aggregate(q.how, rows).None?;
    }
  }

  /** The aggregate times a factor; NULL stays NULL. */
  function Scaled(agg: Option<real>, factor: real): Option<real> {
    if agg.None? then None else Some(agg.value * factor)
  }

  /** The stored and the new grade differ by more than the tolerance, or exactly one of them is NULL. */
  predicate Changed(stored: Option<real>, computed: Option<real>) {
    match (stored, computed)
    case (Some(a), Some(b)) => Abs(b - a) > Epsilon
    case (None, None) => false
    case _ => true
  }

  datatype Action = Delete | Insert(grade: real) | Update(grade: real)

  function ActionFor(stored: Option<real>, computed: Option<real>): Action {
    if computed.None? then Delete else if stored.None? then Insert(computed.value) else Update(computed.value)
  }

  /** The users the query looks at: those with a grade row and those with an eligible attempt. */
  function Candidates(q: QuizGrading, table: seq<Attempt>, grades: GradeTable): set<nat> {
    grades.Keys + set a | a in table && a.quiz == q.id && a.state == Finished && !a.preview :: a.userId
  }

  /**
   * The actions of one bulk run. The total of marks is a decimal string read
   * from the database ("0.00000" when zero), which PHP treats as true, so the
   * early return for a false total never fires and is not modelled.
   */
  function Recompute(q: QuizGrading, table: seq<Attempt>, grades: GradeTable): (r: map<nat, Action>)
    ensures forall u :: u in r <==> Changed(Stored(grades, u), NewGrade(q, table, u))
    ensures forall u :: u in r ==> r[u].Delete? == NewGrade(q, table, u).None?
    ensures forall u :: u in r ==> r[u].Insert? == (NewGrade(q, table, u).Some? && u !in grades)
  {
    NonCandidatesUnchanged(q, table, grades);
    map u | u in Candidates(q, table, grades) && Changed(Stored(grades, u), NewGrade(q, table, u))
      :: ActionFor(Stored(grades, u), NewGrade(q, table, u))
  }

  /** Carries out the actions on the grades table. */
  function Apply(grades: GradeTable, actions: map<nat, Action>): (r: GradeTable)
    ensures forall u :: u !in actions ==> Stored(r, u) == Stored(grades, u)
    ensures forall u :: u in actions ==> Stored(r, u) == if actions[u].Delete? then None else Some(actions[u].grade)
  {
    map u | u in grades.Keys + actions.Keys && !(u in actions && actions[u].Delete?)
      :: if u in actions then actions[u].grade else grades[u]
  }

  /**
   * extendedquiz_update_all_final_grades: every user whose stored grade is
   * out of tolerance of the new grade (or NULL on one side only) gets the
   * new grade, a NULL one removing the row; every other row stays.
   */
  function UpdateAllFinalGrades(q: QuizGrading, table: seq<Attempt>, grades: GradeTable): (r: GradeTable)
    ensures forall u :: Changed(Stored(grades, u), NewGrade(q, table, u)) ==> Stored(r, u) == NewGrade(q, table, u)
    ensures forall u :: !Changed(Stored(grades, u), NewGrade(q, table, u)) ==> Stored(r, u) == Stored(grades, u)
  {
    Apply(grades, Recompute(q, table, grades))
  }

  /** A user who is not a candidate keeps their (absent) row: nothing changes for them. */
  lemma NonCandidatesUnchanged(q: QuizGrading, table: seq<Attempt>, grades: GradeTable)
    ensures forall u :: u !in Candidates(q, table, grades) ==> !Changed(Stored(grades, u), NewGrade(q, table, u))
  {
    forall u | u !in Candidates(q, table, grades) ensures !Changed(Stored(grades, u), NewGrade(q, table, u)) {
      OutsideCandidates(q, table, grades, u);
    }
  }

  /** A user who is not a candidate has neither a grade row nor a new grade. */
  lemma OutsideCandidates(q: QuizGrading, table: seq<Attempt>, grades: GradeTable, u: nat)
    requires u !in Candidates(q, table, grades)
    ensures Stored(grades, u).None? && NewGrade(q, table, u).None?
  {
    NothingEligible(table, q.id, u);
  }

  lemma {:induction false} NothingEligible(table: seq<Attempt>, quiz: nat, user: nat)
    requires forall a :: a in table && a.quiz == quiz && a.state == Finished && !a.preview ==> a.userId != user
    ensures Eligible(table, quiz, user) == []
  {
    if |table| > 0 {
      assert forall a :: a in table[1..] ==> a in table;
      NothingEligible(table[1..], quiz, user);
    }
  }

  /**
   * After a bulk run each user has a row exactly when they have a new grade,
   * the row is within the tolerance of it, and a row that was out of
   * tolerance now holds the new grade exactly.
   */
  lemma UpdateAllReachesNewGrades(q: QuizGrading, table: seq<Attempt>, grades: GradeTable, u: nat)
    ensures var r := UpdateAllFinalGrades(q, table, grades);
            var computed := NewGrade(q, table, u);
            (Stored(r, u).None? <==> computed.None?) &&
            (Stored(r, u).Some? ==> Abs(r[u] - computed.value) <= Epsilon) &&
            (Changed(Stored(grades, u), computed) ==> Stored(r, u) == computed)
  {
    var actions := Recompute(q, table, grades);
    if u !in Candidates(q, table, grades) {
      OutsideCandidates(q, table, grades, u);
    }
  }

  /** A second bulk run straight after the first finds nothing to do. */
  lemma RecomputeIdempotent(q: QuizGrading, table: seq<Attempt>, grades: GradeTable)
    ensures Recompute(q, table, UpdateAllFinalGrades(q, table, grades)) == map[]
  {
    var r := UpdateAllFinalGrades(q, table, grades);
    forall u | u in Candidates(q, table, r)
      ensures !Changed(Stored(r, u), NewGrade(q, table, u))
    {
      UpdateAllReachesNewGrades(q, table, grades, u);
    }
    var again := Recompute(q, table, r);
    assert again.Keys == {};
  }

  // ---------------------------------------------------------------------
  // When the bulk path and the per-user path agree.

  /** No abandoned (non-preview) attempt of `user` at `quiz`: the bulk query ignores those, the per-user query does not. */
  ghost predicate NoAbandoned(table: seq<Attempt>, quiz: nat, user: nat) {
    forall i :: 0 <= i < |table| && table[i].quiz == quiz && table[i].userId == user && !table[i].preview ==>
      table[i].state != Abandoned
  }

  /** A user's attempts at a quiz have distinct numbers, whatever the order of the table. */
  ghost predicate NumbersDistinct(table: seq<Attempt>) {
    forall i, j :: 0 <= i < j < |table| && table[i].quiz == table[j].quiz && table[i].userId == table[j].userId ==>
      table[i].number != table[j].number
  }

  /** Without abandoned attempts the bulk query keeps the rows the per-user fetch keeps, in the same table order. */
  lemma {:induction false} EligibleIsFinishedAttempts(table: seq<Attempt>, quiz: nat, user: nat)
    requires NoAbandoned(table, quiz, user)
    ensures Eligible(table, quiz, user) == Matching(table, quiz, user, FinishedStates, false)
  {
    if |table| > 0 {
      assert forall i :: 1 <= i < |table| ==> table[i] == table[1..][i - 1];
      EligibleIsFinishedAttempts(table[1..], quiz, user);
    }
  }

  /** With numbers distinct per user, the fetched attempts have strictly increasing numbers. */
  lemma UserAttemptsStrictlyAscending(table: seq<Attempt>, quiz: nat, user: nat)
    requires NumbersDistinct(table)
    ensures StrictlyAscending(UserAttempts(table, quiz, user, FinishedStates, false))
  {
    MatchingDistinct(table, quiz, user);
    SortStrictlyAscending(Matching(table, quiz, user, FinishedStates, false));
  }

  lemma {:induction false} MatchingDistinct(table: seq<Attempt>, quiz: nat, user: nat)
    requires NumbersDistinct(table)
    ensures DistinctNumbers(Matching(table, quiz, user, FinishedStates, false))
  {
    if |table| > 0 {
      var tail := table[1..];
      NumbersDistinctTail(table);
      MatchingDistinct(tail, quiz, user);
      var rest := Matching(tail, quiz, user, FinishedStates, false);
      if Selected(table[0], quiz, user, FinishedStates, false) {
        forall a | a in rest ensures table[0].number != a.number {
          FirstNumberDiffers(table, a);
        }
        ConsDistinct(table[0], rest);
      }
    }
  }

  lemma NumbersDistinctTail(table: seq<Attempt>)
    requires NumbersDistinct(table) && |table| > 0
    ensures NumbersDistinct(table[1..])
  {
    var tail := table[1..];
    forall i, j | 0 <= i < j < |tail| && tail[i].quiz == tail[j].quiz && tail[i].userId == tail[j].userId
      ensures tail[i].number != tail[j].number
    {
      assert tail[i] == table[i + 1] && tail[j] == table[j + 1];
    }
  }

  /** The first attempt's number differs from every later attempt of the same user at the same quiz. */
  lemma FirstNumberDiffers(table: seq<Attempt>, a: Attempt)
    requires NumbersDistinct(table) && |table| > 0
    requires a in table[1..] && a.quiz == table[0].quiz && a.userId == table[0].userId
    ensures table[0].number != a.number
  {
    var j :| 0 <= j < |table[1..]| && table[1..][j] == a;
    assert table[j + 1] == a;
  }

  lemma ConsDistinct(x: Attempt, rest: seq<Attempt>)
    requires DistinctNumbers(rest)
    requires forall a :: a in rest ==> x.number != a.number
    ensures DistinctNumbers([x] + rest)
  {
    var r := [x] + rest;
    forall i, j | 0 <= i < j < |r| ensures r[i].number != r[j].number {
      assert r[j] == rest[j - 1];
      if i > 0 {
        assert r[i] == rest[i - 1];
      } else {
        assert r[j] in rest;
      }
    }
  }

  lemma {:induction false} ColumnMaxIsLargest(rows: seq<Attempt>)
    ensures var r := ColumnMax(rows);
            (r.None? <==> forall i :: 0 <= i < |rows| ==> rows[i].sumGrades.None?) &&
            (r.Some? ==> exists i :: 0 <= i < |rows| && rows[i].sumGrades == r) &&
            (r.Some? ==> forall i :: 0 <= i < |rows| && rows[i].sumGrades.Some? ==> rows[i].sumGrades.value <= r.value)
  {
    if |rows| > 0 {
      assert forall i :: 1 <= i < |rows| ==> rows[i] == rows[1..][i - 1];
      ColumnMaxIsLargest(rows[1..]);
      var m := ColumnMax(rows[1..]);
      if m.Some? {
        var k :| 0 <= k < |rows[1..]| && rows[1..][k].sumGrades == m;
        assert rows[k + 1].sumGrades == m;
      }
    }
  }

  /** SQL MAX and the running maximum of the per-user path pick the same mark. */
  lemma ColumnMaxIsRunningMax(rows: seq<Attempt>)
    ensures ColumnMax(rows) == BestGrade(Highest, rows)
  {
    ColumnMaxIsLargest(rows);
    HighestIsMaximum(rows);
    var a := ColumnMax(rows);
    var b := BestGrade(Highest, rows);
    if a.Some? && b.Some? {
      var i :| 0 <= i < |rows| && rows[i].sumGrades == a;
      var j :| 0 <= j < |rows| && rows[j].sumGrades == b;
      assert a.value <= b.value && b.value <= a.value;
    }
  }

  lemma {:induction false} AtNumberSingle(rows: seq<Attempt>, k: nat)
    requires k < |rows|
    requires forall i :: 0 <= i < |rows| && i != k ==> rows[i].number != rows[k].number
    ensures AtNumber(rows, rows[k].number) == [rows[k]]
  {
    var n := rows[k].number;
    assert forall i :: 1 <= i < |rows| ==> rows[i] == rows[1..][i - 1];
    if k == 0 {
      assert forall i :: 0 <= i < |rows[1..]| ==> rows[1..][i].number != n;
    } else {
      AtNumberSingle(rows[1..], k - 1);
    }
  }

  /** SQL MAX depends only on which rows are present. */
  lemma ColumnMaxSameMembers(a: seq<Attempt>, b: seq<Attempt>)
    requires forall x :: x in a <==> x in b
    ensures ColumnMax(a) == ColumnMax(b)
  {
    ColumnMaxIsLargest(a);
    ColumnMaxIsLargest(b);
    var ma := ColumnMax(a);
    var mb := ColumnMax(b);
    if ma.Some? {
      var i :| 0 <= i < |a| && a[i].sumGrades == ma;
      assert a[i] in b;
    }
    if mb.Some? {
      var j :| 0 <= j < |b| && b[j].sumGrades == mb;
      assert b[j] in a;
    }
    if ma.Some? && mb.Some? {
      var i :| 0 <= i < |a| && a[i].sumGrades == ma;
      var j :| 0 <= j < |b| && b[j].sumGrades == mb;
      assert a[i] in b && b[j] in a;
      assert ma.value <= mb.value && mb.value <= ma.value;
    }
  }

  /** MIN and MAX of the attempt numbers depend only on which rows are present. */
  lemma NumberBoundsSameMembers(a: seq<Attempt>, b: seq<Attempt>)
    requires |a| > 0 && |b| > 0
    requires forall x :: x in a <==> x in b
    ensures MinNumber(a) == MinNumber(b) && MaxNumber(a) == MaxNumber(b)
  {
    var i :| 0 <= i < |a| && a[i].number == MinNumber(a);
    var j :| 0 <= j < |b| && b[j].number == MinNumber(b);
    assert a[i] in b && b[j] in a;
    var k :| 0 <= k < |a| && a[k].number == MaxNumber(a);
    var l :| 0 <= l < |b| && b[l].number == MaxNumber(b);
    assert a[k] in b && b[l] in a;
  }

  /** The bulk aggregate does not depend on the order of the rows, as SQL's does not. */
  lemma AggregateOrderFree(how: GradeMethod, a: seq<Attempt>, b: seq<Attempt>)
    requires multiset(a) == multiset(b)
    ensures Aggregate(how, a) == Aggregate(how, b)
  {
    assert forall x :: x in a <==> x in multiset(b);
    assert |a| == |multiset(b)|;
    match how
    case Highest => ColumnMaxSameMembers(a, b);
    case Average => AverageOrderFree(a, b);
    case First =>
      if |a| > 0 {
        NumberBoundsSameMembers(a, b);
        ColumnMaxSameMembers(AtNumber(a, MinNumber(a)), AtNumber(b, MinNumber(b)));
      }
    case Last =>
      if |a| > 0 {
        NumberBoundsSameMembers(a, b);
        ColumnMaxSameMembers(AtNumber(a, MaxNumber(a)), AtNumber(b, MaxNumber(b)));
      }
  }

  /** For "first" and "last" the bulk query reads the same attempt as the per-user path. */
  lemma FirstLastAgree(rows: seq<Attempt>)
    requires StrictlyAscending(rows)
    ensures Aggregate(First, rows) == BestGrade(First, rows)
    ensures Aggregate(Last, rows) == BestGrade(Last, rows)
  {
    if |rows| > 0 {
      var lo := MinNumber(rows);
      var i :| 0 <= i < |rows| && rows[i].number == lo;
      assert rows[0].number <= rows[i].number;
      assert i == 0;
      AtNumberSingle(rows, 0);
      var last := |rows| - 1;
      var hi := MaxNumber(rows);
      var j :| 0 <= j < |rows| && rows[j].number == hi;
      assert rows[j].number <= rows[last].number;
      assert j == last;
      AtNumberSingle(rows, last);
      assert ColumnMax([rows[0]]) == rows[0].sumGrades;
      assert ColumnMax([rows[last]]) == rows[last].sumGrades;
    }
  }

  lemma AggregateIsBestGrade(how: GradeMethod, rows: seq<Attempt>)
    requires StrictlyAscending(rows)
    ensures Aggregate(how, rows) == BestGrade(how, rows)
  {
    match how
    case Highest => ColumnMaxIsRunningMax(rows);
    case Average =>
    case First => FirstLastAgree(rows);
    case Last => FirstLastAgree(rows);
  }

  /**
   * For a user without abandoned attempts, in a quiz with a non-negligible
   * total of marks, the bulk recompute computes exactly the grade the
   * per-user path saves.
   */
  lemma BulkMatchesPerUser(q: QuizGrading, table: seq<Attempt>, user: nat)
    requires q.sumGrades >= Epsilon
    requires NoAbandoned(table, q.id, user)
    requires NumbersDistinct(table)
    ensures SameGrade(NewGrade(q, table, user), UserBest(q, table, user))
  {
    var rows := UserAttempts(table, q.id, user, FinishedStates, false);
    var eligible := Eligible(table, q.id, user);
    EligibleIsFinishedAttempts(table, q.id, user);
    assert multiset(eligible) == multiset(rows);
    assert |eligible| == |multiset(rows)|;
    UserAttemptsStrictlyAscending(table, q.id, user);
    if |rows| == 0 {
      NoAttemptsNoGrade(q.how);
    } else {
      AggregateOrderFree(q.how, eligible, rows);
      AggregateIsBestGrade(q.how, rows);
      var agg := Aggregate(q.how, rows);
      assert NewGrade(q, table, user) == Scaled(agg, q.grade / q.sumGrades);
      assert UserBest(q, table, user) == Rescale(agg, q.grade, q.sumGrades);
      if agg.Some? {
        RescaleByRatio(agg.value, q.grade, q.sumGrades);
      }
    }
  }

  /** Multiplying by the ratio, as the bulk query does, is the per-user rescaling. */
  lemma RescaleByRatio(v: real, grade: real, sumGrades: real)
    requires sumGrades >= Epsilon
    ensures Rescale(Some(v), grade, sumGrades).value == Scaled(Some(v), grade / sumGrades).value
  {
    assert v * grade / sumGrades == v * (grade / sumGrades);
  }

  /** With a non-negligible total the new grade is the aggregate times grade/sumgrades; NULL without eligible attempts. */
  lemma NewGradeScaled(q: QuizGrading, table: seq<Attempt>, user: nat)
    requires q.sumGrades >= Epsilon
    ensures var rows := Eligible(table, q.id, user);
            NewGrade(q, table, user) == if |rows| == 0 then None else Scaled(Aggregate(q.how, rows), q.grade / q.sumGrades)
  {
  }

  lemma ScaledIsRescale(agg: Option<real>, grade: real, sumGrades: real)
    requires sumGrades >= Epsilon
    ensures SameGrade(Scaled(agg, grade / sumGrades), Rescale(agg, grade, sumGrades))
  {
    if agg.Some? {
      RescaleByRatio(agg.value, grade, sumGrades);
    }
  }

  /** With the first attempt abandoned, the two paths disagree under "first": the per-user path reads the abandoned one. */
  lemma AbandonedAttemptSplitsPaths()
    ensures var q := QuizGrading(1, First, 10.0, 10.0);
            var table := [Attempt(1, 1, 5, 1, Abandoned, false, None, 100, 200),
                          Attempt(2, 1, 5, 2, Finished, false, Some(6.0), 300, 400)];
            NewGrade(q, table, 5) == Some(6.0) && UserBest(q, table, 5) == None
  {
    var q := QuizGrading(1, First, 10.0, 10.0);
    var a1 := Attempt(1, 1, 5, 1, Abandoned, false, None, 100, 200);
    var a2 := Attempt(2, 1, 5, 2, Finished, false, Some(6.0), 300, 400);
    var table := [a1, a2];
    assert table[1..] == [a2];
    assert [a2][1..] == [];
    assert Eligible([a2], 1, 5) == [a2];
    assert Eligible(table, 1, 5) == [a2];
    assert AtNumber([a2], 2) == [a2];
    assert UserAttempts([a2], 1, 5, FinishedStates, false) == [a2];
    assert UserAttempts(table, 1, 5, FinishedStates, false) == [a1, a2];
  }

  // ---------------------------------------------------------------------
  // Changing the maximum grade (extendedquiz_set_grade).

  /** Below this a change of maximum grade is ignored, and an old maximum counts as zero for rescaling feedback. */
  const GradeTolerance: real := 0.0000001

  /** A feedback band, with its grade limits. */
  datatype Band = Band(minGrade: real, maxGrade: real)

  datatype GradeState = GradeState(quiz: QuizGrading, grades: GradeTable, bands: seq<Band>)

  function ScaleBands(bands: seq<Band>, factor: real): (r: seq<Band>)
    ensures |r| == |bands|
    ensures forall i :: 0 <= i < |r| ==> r[i] == Band(factor * bands[i].minGrade, factor * bands[i].maxGrade)
  {
    seq(|bands|, i requires 0 <= i < |bands| => Band(factor * bands[i].minGrade, factor * bands[i].maxGrade))
  }

  /**
   * A negligible change does nothing. Otherwise the maximum grade is set; an
   * old maximum below 1 has the grades recomputed, a larger one has them
   * multiplied by new/old; the feedback bands are multiplied too unless the
   * old maximum was (nearly) zero.
   */
  function SetGrade(newGrade: real, st: GradeState, table: seq<Attempt>): (r: GradeState)
    ensures Abs(st.quiz.grade - newGrade) < GradeTolerance ==> r == st
    ensures r.quiz == st.quiz.(grade := r.quiz.grade)
    ensures r.quiz.grade == newGrade || r == st
  {
    var prev := st.quiz.grade;
    if Abs(prev - newGrade) < GradeTolerance then st
    else
      var q := st.quiz.(grade := newGrade);
      var grades :=
        if prev < 1.0 then UpdateAllFinalGrades(q, table, st.grades)
        else map u | u in st.grades :: (newGrade / prev) * st.grades[u];
      var bands := if prev > GradeTolerance then ScaleBands(st.bands, newGrade / prev) else st.bands;
      GradeState(q, grades, bands)
  }

  /** With an old maximum of at least 1 every stored grade and band limit keeps its ratio to the maximum. */
  lemma SetGradeKeepsRatios(newGrade: real, st: GradeState, table: seq<Attempt>)
    requires st.quiz.grade >= 1.0
    requires Abs(st.quiz.grade - newGrade) >= GradeTolerance
    ensures var r := SetGrade(newGrade, st, table);
            var prev := st.quiz.grade;
            r.grades.Keys == st.grades.Keys &&
            (forall u :: u in r.grades ==> r.grades[u] * prev == st.grades[u] * newGrade) &&
            |r.bands| == |st.bands| &&
            (forall i :: 0 <= i < |r.bands| ==>
               r.bands[i].minGrade * prev == st.bands[i].minGrade * newGrade &&
               r.bands[i].maxGrade * prev == st.bands[i].maxGrade * newGrade)
  {
    var prev := st.quiz.grade;
    var f := newGrade / prev;
    assert f * prev == newGrade;
    var r := SetGrade(newGrade, st, table);
    forall u | u in r.grades ensures r.grades[u] * prev == st.grades[u] * newGrade {
      assert r.grades[u] == f * st.grades[u];
      calc {
        r.grades[u] * prev;
        (f * prev) * st.grades[u];
        newGrade * st.grades[u];
      }
    }
    forall i | 0 <= i < |r.bands|
      ensures r.bands[i].minGrade * prev == st.bands[i].minGrade * newGrade
      ensures r.bands[i].maxGrade * prev == st.bands[i].maxGrade * newGrade
    {
      assert r.bands[i].minGrade == f * st.bands[i].minGrade;
      assert r.bands[i].maxGrade == f * st.bands[i].maxGrade;
    }
  }

  /** Every user's stored grade is exactly the one the bulk recompute would compute. */
  ghost predicate UpToDate(q: QuizGrading, table: seq<Attempt>, grades: GradeTable) {
    forall u :: SameGrade(Stored(grades, u), NewGrade(q, table, u))
  }

  /** Rescaling up-to-date grades gives exactly the grades a recompute against the new maximum would give. */
  lemma SetGradeRescaleMatchesRecompute(newGrade: real, st: GradeState, table: seq<Attempt>)
    requires st.quiz.grade >= 1.0 && st.quiz.sumGrades >= Epsilon
    requires UpToDate(st.quiz, table, st.grades)
    ensures var r := SetGrade(newGrade, st, table);
            UpToDate(r.quiz, table, r.grades)
  {
    var r := SetGrade(newGrade, st, table);
    if Abs(st.quiz.grade - newGrade) >= GradeTolerance {
      forall u ensures SameGrade(Stored(r.grades, u), NewGrade(r.quiz, table, u)) {
        SetGradeMultiplies(newGrade, st, table, u);
        RescaleOneUser(newGrade, st.quiz, table, u, Stored(st.grades, u), Stored(r.grades, u));
      }
    }
  }

  /** One user's step of SetGradeRescaleMatchesRecompute: the stored grade and the recomputed one both scale by new/old. */
  lemma RescaleOneUser(newGrade: real, q: QuizGrading, table: seq<Attempt>, u: nat, before: Option<real>, after: Option<real>)
    requires q.grade >= 1.0 && q.sumGrades >= Epsilon
    requires SameGrade(before, NewGrade(q, table, u))
    requires after.Some? == before.Some? && (before.Some? ==> after.value == (newGrade / q.grade) * before.value)
    ensures SameGrade(after, NewGrade(q.(grade := newGrade), table, u))
  {
    var agg := BothScaled(q, newGrade, table, u);
    ScaledRescale(agg, before, after, q.grade, newGrade, q.sumGrades);
  }

  /** The new grade against the old and the new maximum scale the same aggregate (NULL without eligible attempts). */
  lemma BothScaled(q: QuizGrading, newGrade: real, table: seq<Attempt>, u: nat) returns (agg: Option<real>)
    requires q.sumGrades >= Epsilon
    ensures NewGrade(q, table, u) == Scaled(agg, q.grade / q.sumGrades)
    ensures NewGrade(q.(grade := newGrade), table, u) == Scaled(agg, newGrade / q.sumGrades)
  {
    NewGradeScaled(q, table, u);
    NewGradeScaled(q.(grade := newGrade), table, u);
    var rows := Eligible(table, q.id, u);
    agg := if |rows| > 0 then Aggregate(q.how, rows) else None;
  }

  /** Above an old maximum of 1, SetGrade sets the maximum and multiplies each stored grade by new/old. */
  lemma SetGradeMultiplies(newGrade: real, st: GradeState, table: seq<Attempt>, u: nat)
    requires st.quiz.grade >= 1.0
    requires Abs(st.quiz.grade - newGrade) >= GradeTolerance
    ensures SetGrade(newGrade, st, table).quiz == st.quiz.(grade := newGrade)
    ensures var after := Stored(SetGrade(newGrade, st, table).grades, u);
            after.Some? == (u in st.grades) &&
            (u in st.grades ==> after.value == (newGrade / st.quiz.grade) * st.grades[u])
  {
    var grades := SetGrade(newGrade, st, table).grades;
    assert grades == map v | v in st.grades :: (newGrade / st.quiz.grade) * st.grades[v];
  }

  lemma ScaledRescale(agg: Option<real>, stored: Option<real>, rescaled: Option<real>, prev: real, next: real, s: real)
    requires prev >= 1.0 && s >= Epsilon
    requires SameGrade(stored, Scaled(agg, prev / s))
    requires rescaled.Some? == stored.Some? && (stored.Some? ==> rescaled.value == (next / prev) * stored.value)
    ensures SameGrade(rescaled, Scaled(agg, next / s))
  {
    if agg.Some? {
      var v := agg.value;
      assert stored.value == v * (prev / s);
      RatioCancels(v, prev, next, s);
      assert (next / prev) * stored.value == v * (next / s);
    }
  }

  lemma RatioCancels(v: real, prev: real, next: real, s: real)
    requires prev >= 1.0 && s >= Epsilon
    ensures (next / prev) * (v * (prev / s)) == v * (next / s)
  {
  }

  // ---------------------------------------------------------------------
  // Recomputing the total of marks (extendedquiz_update_sumgrades).

  /** Whether the quiz has any attempt that is not a preview. */
  predicate HasAttempts(table: seq<Attempt>, quiz: nat) {
    exists a :: a in table && a.quiz == quiz && !a.preview
  }

  /**
   * The total of marks becomes the sum of the question instances' marks (0
   * for none); when it is negligible and the quiz has real attempts the
   * maximum grade is set to 0 as well.
   */
  function UpdateSumgrades(st: GradeState, instanceMarks: seq<real>, table: seq<Attempt>): (r: GradeState)
    ensures r.quiz.sumGrades == Sum(instanceMarks)
    ensures r.quiz.id == st.quiz.id && r.quiz.how == st.quiz.how
  {
    var q := st.quiz.(sumGrades := Sum(instanceMarks));
    if q.sumGrades < Epsilon && HasAttempts(table, q.id) then SetGrade(0.0, st.(quiz := q), table)
    else st.(quiz := q)
  }

  /** A quiz with real attempts never keeps a non-zero maximum grade against a negligible total: it stops being graded. */
  lemma UpdateSumgradesUngrades(st: GradeState, instanceMarks: seq<real>, table: seq<Attempt>)
    requires Sum(instanceMarks) < Epsilon && HasAttempts(table, st.quiz.id)
    ensures Abs(UpdateSumgrades(st, instanceMarks, table).quiz.grade) < GradeTolerance
    ensures !HasGrades(UpdateSumgrades(st, instanceMarks, table).quiz.grade, UpdateSumgrades(st, instanceMarks, table).quiz.sumGrades)
  {
  }

  /**
   * When the new total is negligible, the quiz has real attempts and the
   * maximum grade was not already 0, every grade row left afterwards is 0
   * (within the tolerance): a maximum of at least 1 multiplies the rows by
   * 0, a smaller one recomputes them with the constant 0.
   */
  lemma UpdateSumgradesZeroesGrades(st: GradeState, instanceMarks: seq<real>, table: seq<Attempt>)
    requires Sum(instanceMarks) < Epsilon && HasAttempts(table, st.quiz.id)
    requires Abs(st.quiz.grade) >= GradeTolerance
    ensures var r := UpdateSumgrades(st, instanceMarks, table);
            forall u :: u in r.grades ==> Abs(r.grades[u]) <= Epsilon
  {
    var q := st.quiz.(sumGrades := Sum(instanceMarks));
    var r := UpdateSumgrades(st, instanceMarks, table);
    assert r == SetGrade(0.0, st.(quiz := q), table);
    if st.quiz.grade >= 1.0 {
      forall u | u in r.grades ensures Abs(r.grades[u]) <= Epsilon {
        SetGradeMultiplies(0.0, st.(quiz := q), table, u);
      }
    } else {
      var q' := q.(grade := 0.0);
      assert r.grades == UpdateAllFinalGrades(q', table, st.grades);
      forall u | u in r.grades ensures Abs(r.grades[u]) <= Epsilon {
        UpdateAllReachesNewGrades(q', table, st.grades, u);
      }
    }
  }
}
