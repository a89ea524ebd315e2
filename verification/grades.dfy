/**
 * Attempts and the per-user grade (locallib.php, lib.php): which attempts
 * count, how the grading method turns their raw marks into one raw mark,
 * which attempt is "the best", and how a raw mark is rescaled to the quiz's
 * maximum grade.
 */
module Grades {
  import opened Wrappers

  /** Below this a quiz's maximum grade or total of marks counts as zero. */
  const Epsilon: real := 0.000005

  datatype AttemptState = InProgress | Overdue | Finished | Abandoned

  /** A row of the attempts table; `sumGrades` is the raw mark, NULL when not (yet) graded. */
  datatype Attempt = Attempt(
    id: nat,
    quiz: nat,
    userId: nat,
    number: nat,
    state: AttemptState,
    preview: bool,
    sumGrades: Option<real>,
    timeStart: int,
    timeFinish: int)

  datatype GradeMethod = Highest | Average | First | Last

  /** The stored grading-method code; anything unrecognised is graded as "highest" (the switch's default). */
  function MethodOfCode(code: int): (m: GradeMethod)
    ensures m == Average <==> code == 2
    ensures m == First <==> code == 3
    ensures m == Last <==> code == 4
    ensures m == Highest <==> code !in {2, 3, 4}
  {
    if code == 2 then Average else if code == 3 then First else if code == 4 then Last else Highest
  }

  /** The grading settings of a quiz: its maximum grade and the total of its question marks. */
  datatype QuizGrading = QuizGrading(id: nat, how: GradeMethod, grade: real, sumGrades: real)

  // ---------------------------------------------------------------------
  // Which attempts are fetched (lib.php, extendedquiz_get_user_attempts).

  datatype Status = AllStates | FinishedStates | UnfinishedStates

  predicate InStatus(a: Attempt, status: Status) {
    match status
    case AllStates => true
    case FinishedStates => a.state == Finished || a.state == Abandoned
    case UnfinishedStates => a.state == InProgress || a.state == Overdue
  }

  predicate Selected(a: Attempt, quiz: nat, user: nat, status: Status, includePreviews: bool) {
    a.quiz == quiz && a.userId == user && InStatus(a, status) && (includePreviews || !a.preview)
  }

  /** The rows the query's conditions keep, in table order. */
  function Matching(table: seq<Attempt>, quiz: nat, user: nat, status: Status, includePreviews: bool): (r: seq<Attempt>)
    ensures |r| <= |table|
    ensures forall a :: a in r <==> a in table && Selected(a, quiz, user, status, includePreviews)
  {
    if |table| == 0 then []
    else
      var rest := Matching(table[1..], quiz, user, status, includePreviews);
      assert forall a :: a in table <==> a == table[0] || a in table[1..];
      if Selected(table[0], quiz, user, status, includePreviews) then [table[0]] + rest else rest
  }

  /**
   * The attempts of `user` at `quiz` in the given status class, previews only
   * on request, sorted by attempt number whatever the order of the table.
   */
  function UserAttempts(table: seq<Attempt>, quiz: nat, user: nat, status: Status, includePreviews: bool): (r: seq<Attempt>)
    ensures |r| <= |table|
    ensures forall a :: a in r <==> a in table && Selected(a, quiz, user, status, includePreviews)
    ensures multiset(r) == multiset(Matching(table, quiz, user, status, includePreviews))
    ensures Ascending(r)
  {
    var m := Matching(table, quiz, user, status, includePreviews);
    var r := SortByNumber(m);
    assert forall a :: a in r <==> a in multiset(m);
    r
  }

  /** Nothing selected when no attempt in the table qualifies. */
  lemma {:induction false} NothingSelected(table: seq<Attempt>, quiz: nat, user: nat, status: Status, includePreviews: bool)
    requires forall a :: a in table ==> !Selected(a, quiz, user, status, includePreviews)
    ensures Matching(table, quiz, user, status, includePreviews) == []
    ensures UserAttempts(table, quiz, user, status, includePreviews) == []
  {
    if |table| > 0 {
      assert forall a :: a in table[1..] ==> a in table;
      NothingSelected(table[1..], quiz, user, status, includePreviews);
    }
  }

  /** The first fetched attempt has the lowest number of all qualifying attempts, the last the highest. */
  lemma FetchedInAttemptOrder(table: seq<Attempt>, quiz: nat, user: nat, status: Status, includePreviews: bool, a: Attempt)
    requires a in table && Selected(a, quiz, user, status, includePreviews)
    ensures var r := UserAttempts(table, quiz, user, status, includePreviews);
            |r| > 0 && r[0].number <= a.number <= r[|r| - 1].number
  {
    var r := UserAttempts(table, quiz, user, status, includePreviews);
    var k :| 0 <= k < |r| && r[k] == a;
    assert r[0].number <= r[k].number <= r[|r| - 1].number;
  }

  /** A table stored out of order: "first" still reads attempt 1. */
  lemma FirstReadsLowestNumber()
    ensures var a2 := Attempt(7, 1, 5, 2, Finished, false, Some(8.0), 300, 400);
            var a1 := Attempt(6, 1, 5, 1, Finished, false, Some(3.0), 100, 200);
            BestGrade(First, UserAttempts([a2, a1], 1, 5, FinishedStates, false)) == Some(3.0)
  {
    var a2 := Attempt(7, 1, 5, 2, Finished, false, Some(8.0), 300, 400);
    var a1 := Attempt(6, 1, 5, 1, Finished, false, Some(3.0), 100, 200);
    FetchedInAttemptOrder([a2, a1], 1, 5, FinishedStates, false, a1);
    var r := UserAttempts([a2, a1], 1, 5, FinishedStates, false);
    assert r[0] in [a2, a1];
  }

  // ---------------------------------------------------------------------
  // Sorting by attempt number (ORDER BY attempt ASC).

  /** Attempt numbers never decrease along the sequence. */
  ghost predicate Ascending(s: seq<Attempt>) {
    forall i, j :: 0 <= i < j < |s| ==> s[i].number <= s[j].number
  }

  ghost predicate StrictlyAscending(s: seq<Attempt>) {
    forall i, j :: 0 <= i < j < |s| ==> s[i].number < s[j].number
  }

  /** No two positions carry the same attempt number. */
  ghost predicate DistinctNumbers(s: seq<Attempt>) {
    forall i, j :: 0 <= i < j < |s| ==> s[i].number != s[j].number
  }

  /** Puts `x` in front of the first attempt whose number is at least its own. */
  function InsertByNumber(x: Attempt, s: seq<Attempt>): (r: seq<Attempt>)
    ensures |r| == |s| + 1
    ensures multiset(r) == multiset(s) + multiset{x}
    ensures Ascending(s) ==> Ascending(r)
  {
    if |s| == 0 || x.number <= s[0].number then
      InsertFront(x, s);
      [x] + s
    else
      var rest := InsertByNumber(x, s[1..]);
      assert s == [s[0]] + s[1..];
      InsertLater(x, s, rest);
      [s[0]] + rest
  }

  /** Insertion sort by attempt number; attempts with equal numbers keep their order. */
  function SortByNumber(s: seq<Attempt>): (r: seq<Attempt>)
    ensures |r| == |s|
    ensures multiset(r) == multiset(s)
    ensures Ascending(r)
  {
    if |s| == 0 then []
    else
      assert s == [s[0]] + s[1..];
      InsertByNumber(s[0], SortByNumber(s[1..]))
  }

  lemma AscendingTail(s: seq<Attempt>)
    requires Ascending(s) && |s| > 0
    ensures Ascending(s[1..])
    ensures forall a :: a in s[1..] ==> s[0].number <= a.number
  {
  }

  lemma AscendingCons(x: Attempt, rest: seq<Attempt>)
    requires Ascending(rest)
    requires forall a :: a in rest ==> x.number <= a.number
    ensures Ascending([x] + rest)
  {
    var r := [x] + rest;
    forall i, j | 0 <= i < j < |r| ensures r[i].number <= r[j].number {
      assert r[j] == rest[j - 1];
      if i > 0 {
        assert r[i] == rest[i - 1];
      } else {
        assert r[j] in rest;
      }
    }
  }

  lemma InsertFront(x: Attempt, s: seq<Attempt>)
    requires |s| == 0 || x.number <= s[0].number
    ensures Ascending(s) ==> Ascending([x] + s)
  {
    if Ascending(s) {
      assert forall a :: a in s ==> x.number <= a.number;
      AscendingCons(x, s);
    }
  }

  lemma InsertLater(x: Attempt, s: seq<Attempt>, rest: seq<Attempt>)
    requires |s| > 0 && s[0].number < x.number
    requires multiset(rest) == multiset(s[1..]) + multiset{x}
    requires Ascending(s[1..]) ==> Ascending(rest)
    ensures Ascending(s) ==> Ascending([s[0]] + rest)
  {
    if Ascending(s) {
      AscendingTail(s);
      forall a | a in rest ensures s[0].number <= a.number {
        assert a in multiset(rest);
      }
      AscendingCons(s[0], rest);
    }
  }

  lemma ConsStrictlyAscending(x: Attempt, rest: seq<Attempt>)
    requires StrictlyAscending(rest)
    requires forall a :: a in rest ==> x.number < a.number
    ensures StrictlyAscending([x] + rest)
  {
    var r := [x] + rest;
    forall i, j | 0 <= i < j < |r| ensures r[i].number < r[j].number {
      assert r[j] == rest[j - 1];
      if i > 0 {
        assert r[i] == rest[i - 1];
      } else {
        assert r[j] in rest;
      }
    }
  }

  /** Inserting a number not yet present keeps the numbers strictly increasing. */
  lemma {:induction false} InsertStrictlyAscending(x: Attempt, s: seq<Attempt>)
    requires StrictlyAscending(s)
    requires forall a :: a in s ==> a.number != x.number
    ensures StrictlyAscending(InsertByNumber(x, s))
  {
    if |s| == 0 || x.number <= s[0].number {
      forall a | a in s ensures x.number < a.number {
        var k :| 0 <= k < |s| && s[k] == a;
        assert s[0].number <= s[k].number;
      }
      ConsStrictlyAscending(x, s);
    } else {
      var t := s[1..];
      assert forall a :: a in t ==> a in s;
      InsertStrictlyAscending(x, t);
      var rest := InsertByNumber(x, t);
      forall a | a in rest ensures s[0].number < a.number {
        assert a in multiset(rest);
        if a != x {
          var k :| 0 <= k < |t| && t[k] == a;
          assert s[k + 1] == a;
        }
      }
      ConsStrictlyAscending(s[0], rest);
    }
  }

  /** Sorting attempts with distinct numbers gives strictly increasing numbers. */
  lemma {:induction false} SortStrictlyAscending(s: seq<Attempt>)
    requires DistinctNumbers(s)
    ensures StrictlyAscending(SortByNumber(s))
  {
    if |s| > 0 {
      var t := s[1..];
      assert DistinctNumbers(t) by {
        forall i, j | 0 <= i < j < |t| ensures t[i].number != t[j].number {
          assert t[i] == s[i + 1] && t[j] == s[j + 1];
        }
      }
      SortStrictlyAscending(t);
      var sorted := SortByNumber(t);
      forall a | a in sorted ensures a.number != s[0].number {
        assert a in multiset(sorted);
        var k :| 0 <= k < |t| && t[k] == a;
        assert s[k + 1] == a;
      }
      InsertStrictlyAscending(s[0], sorted);
    }
  }

  /** A sequence already in attempt order is left as it is. */
  lemma {:induction false} SortKeepsAscending(s: seq<Attempt>)
    requires Ascending(s)
    ensures SortByNumber(s) == s
  {
    if |s| > 0 {
      AscendingTail(s);
      SortKeepsAscending(s[1..]);
      assert s == [s[0]] + s[1..];
    }
  }

  // ---------------------------------------------------------------------
  // The raw mark of a user (locallib.php, extendedquiz_calculate_best_grade).

  /**
   * PHP's `>` between a raw mark fetched from the database and the running
   * maximum: a fetched mark is a numeric string, which compares greater than
   * `null`; `null` compares greater than nothing.
   */
  predicate PhpGreater(a: Option<real>, b: Option<real>) {
    match (a, b)
    case (None, _) => false
    case (Some(_), None) => true
    case (Some(x), Some(y)) => x > y
  }

  /** The running maximum of the "highest" method, started from `max`. */
  function RunningMax(s: seq<Attempt>, max: Option<real>): Option<real> {
    if |s| == 0 then max
    else RunningMax(s[1..], if PhpGreater(s[0].sumGrades, max) then s[0].sumGrades else max)
  }

  /** The non-NULL raw marks, in order. */
  function Marks(s: seq<Attempt>): (vs: seq<real>)
    ensures |vs| <= |s|
    ensures forall i :: 0 <= i < |s| && s[i].sumGrades.Some? ==> s[i].sumGrades.value in vs
    ensures forall v :: v in vs ==> exists i :: 0 <= i < |s| && s[i].sumGrades == Some(v)
    ensures |vs| == 0 <==> forall i :: 0 <= i < |s| ==> s[i].sumGrades.None?
  {
    if |s| == 0 then []
    else
      var rest := Marks(s[1..]);
      assert forall i :: 1 <= i < |s| ==> s[i] == s[1..][i - 1];
      match s[0].sumGrades
      case Some(v) => [v] + rest
      case None => rest
  }

  function Sum(vs: seq<real>): real {
    if |vs| == 0 then 0.0 else vs[0] + Sum(vs[1..])
  }

  function Mean(vs: seq<real>): real
    requires |vs| > 0
  {
    Sum(vs) / (|vs| as real)
  }

  /** The raw mark that represents a user's attempts (already in attempt order) under `method`. */
  function BestGrade(how: GradeMethod, s: seq<Attempt>): (r: Option<real>)
    ensures |s| == 0 ==> r.None?
    // "Highest" and "average" are NULL exactly when no attempt is graded.
    ensures how == Highest || how == Average ==> (r.None? <==> forall i :: 0 <= i < |s| ==> s[i].sumGrades.None?)
    // Every method but "average" picks the mark of one of the attempts.
    ensures how != Average && r.Some? ==> exists i :: 0 <= i < |s| && s[i].sumGrades == r
  {
    match how
    case First => if |s| == 0 then None else s[0].sumGrades
    case Last => if |s| == 0 then None else s[|s| - 1].sumGrades
    case Average =>
      var vs := Marks(s);
      if |vs| == 0 then None else Some(Mean(vs))
    case Highest =>
      RunningMaxIsLargest(s, None);
      RunningMax(s, None)
  }

  /** The running maximum is the largest non-NULL mark seen, or the start value if that is larger or nothing was seen. */
  lemma {:induction false} RunningMaxIsLargest(s: seq<Attempt>, max: Option<real>)
    ensures var r := RunningMax(s, max);
            (r.None? <==> max.None? && |Marks(s)| == 0) &&
            (r.Some? ==> (r == max || r.value in Marks(s))) &&
            (r.Some? ==> forall v :: v in Marks(s) ==> v <= r.value) &&
            (max.Some? ==> r.Some? && max.value <= r.value)
  {
    if |s| > 0 {
      var next := if PhpGreater(s[0].sumGrades, max) then s[0].sumGrades else max;
      RunningMaxIsLargest(s[1..], next);
      assert forall i :: 1 <= i < |s| ==> s[i] == s[1..][i - 1];
    }
  }

  /**
   * "Highest": NULL for no attempts or only ungraded ones; otherwise one
   * attempt's mark, and no attempt has a larger one.
   */
  lemma HighestIsMaximum(s: seq<Attempt>)
    ensures var r := BestGrade(Highest, s);
            (r.None? <==> forall i :: 0 <= i < |s| ==> s[i].sumGrades.None?) &&
            (r.Some? ==> exists i :: 0 <= i < |s| && s[i].sumGrades == r) &&
            (r.Some? ==> forall i :: 0 <= i < |s| && s[i].sumGrades.Some? ==> s[i].sumGrades.value <= r.value)
  {
    RunningMaxIsLargest(s, None);
    var r := BestGrade(Highest, s);
    if r.Some? {
      assert r.value in Marks(s);
    }
  }

  /** "Average" is NULL exactly when no attempt is graded. */
  lemma AverageNullWhenUngraded(s: seq<Attempt>)
    ensures BestGrade(Average, s).None? <==> forall i :: 0 <= i < |s| ==> s[i].sumGrades.None?
  {
  }

  /** Otherwise "average" is the mean of the graded attempts' marks. */
  lemma AverageIsMean(s: seq<Attempt>)
    requires BestGrade(Average, s).Some?
    ensures |Marks(s)| > 0 && BestGrade(Average, s).value == Mean(Marks(s))
  {
  }

  lemma {:induction false} SumBelow(vs: seq<real>, bound: real)
    requires forall v :: v in vs ==> v <= bound
    ensures Sum(vs) <= (|vs| as real) * bound
  {
    if |vs| > 0 {
      assert forall v :: v in vs[1..] ==> v in vs;
      assert vs[0] in vs;
      SumBelow(vs[1..], bound);
      assert (|vs| as real) * bound == bound + ((|vs| - 1) as real) * bound;
    }
  }

  lemma {:induction false} SumAbove(vs: seq<real>, bound: real)
    requires forall v :: v in vs ==> bound <= v
    ensures (|vs| as real) * bound <= Sum(vs)
  {
    if |vs| > 0 {
      assert forall v :: v in vs[1..] ==> v in vs;
      assert vs[0] in vs;
      SumAbove(vs[1..], bound);
      assert (|vs| as real) * bound == bound + ((|vs| - 1) as real) * bound;
    }
  }

  lemma DivideBelow(x: real, n: real, bound: real)
    requires n > 0.0 && x <= n * bound
    ensures x / n <= bound
  {
  }

  lemma DivideAbove(x: real, n: real, bound: real)
    requires n > 0.0 && n * bound <= x
    ensures bound <= x / n
  {
  }

  /** A mean lies between any lower and upper bound of the values. */
  lemma MeanBetween(vs: seq<real>, lo: real, hi: real)
    requires |vs| > 0
    requires forall v :: v in vs ==> lo <= v <= hi
    ensures lo <= Mean(vs) <= hi
  {
    SumBelow(vs, hi);
    SumAbove(vs, lo);
    DivideBelow(Sum(vs), |vs| as real, hi);
    DivideAbove(Sum(vs), |vs| as real, lo);
  }

  lemma {:induction false} MarksAppend(u: seq<Attempt>, v: seq<Attempt>)
    ensures Marks(u + v) == Marks(u) + Marks(v)
    decreases |u|
  {
    if |u| > 0 {
      assert (u + v)[1..] == u[1..] + v;
      MarksAppend(u[1..], v);
    } else {
      assert u + v == v;
    }
  }

  lemma {:induction false} SumAppend(u: seq<real>, v: seq<real>)
    ensures Sum(u + v) == Sum(u) + Sum(v)
    decreases |u|
  {
    if |u| > 0 {
      assert (u + v)[1..] == u[1..] + v;
      SumAppend(u[1..], v);
    } else {
      assert u + v == v;
    }
  }

  /** Reordering the attempts reorders their marks. */
  lemma {:induction false} MarksPermutation(a: seq<Attempt>, b: seq<Attempt>)
    requires multiset(a) == multiset(b)
    ensures multiset(Marks(a)) == multiset(Marks(b))
    decreases |a|
  {
    if |a| > 0 {
      var x := a[0];
      assert x in multiset(b);
      var k :| 0 <= k < |b| && b[k] == x;
      var b' := b[..k] + b[k + 1..];
      assert b == b[..k] + [x] + b[k + 1..];
      assert a == [x] + a[1..];
      assert multiset(a) == multiset{x} + multiset(a[1..]);
      assert multiset(b) == multiset(b[..k]) + multiset{x} + multiset(b[k + 1..]);
      assert multiset(b') == multiset(b[..k]) + multiset(b[k + 1..]);
      assert multiset(a[1..]) == multiset(a) - multiset{x};
      assert multiset(b') == multiset(b) - multiset{x};
      assert multiset(a[1..]) == multiset(b');
      MarksPermutation(a[1..], b');
      MarksAppend([x], a[1..]);
      MarksAppend(b[..k] + [x], b[k + 1..]);
      MarksAppend(b[..k], [x]);
      MarksAppend(b[..k], b[k + 1..]);
    }
  }

  /** The sum does not depend on the order of the values. */
  lemma {:induction false} SumPermutation(u: seq<real>, v: seq<real>)
    requires multiset(u) == multiset(v)
    ensures Sum(u) == Sum(v)
    decreases |u|
  {
    if |u| > 0 {
      var x := u[0];
      assert x in multiset(v);
      var k :| 0 <= k < |v| && v[k] == x;
      var v' := v[..k] + v[k + 1..];
      assert v == v[..k] + [x] + v[k + 1..];
      assert u == [x] + u[1..];
      assert multiset(u) == multiset{x} + multiset(u[1..]);
      assert multiset(v) == multiset(v[..k]) + multiset{x} + multiset(v[k + 1..]);
      assert multiset(v') == multiset(v[..k]) + multiset(v[k + 1..]);
      assert multiset(u[1..]) == multiset(u) - multiset{x};
      assert multiset(v') == multiset(v) - multiset{x};
      assert multiset(u[1..]) == multiset(v');
      SumPermutation(u[1..], v');
      SumAppend(v[..k] + [x], v[k + 1..]);
      SumAppend(v[..k], [x]);
      SumAppend(v[..k], v[k + 1..]);
    }
  }

  /** "Average" does not depend on the order of the attempts. */
  lemma AverageOrderFree(a: seq<Attempt>, b: seq<Attempt>)
    requires multiset(a) == multiset(b)
    ensures BestGrade(Average, a) == BestGrade(Average, b)
  {
    MarksPermutation(a, b);
    SumPermutation(Marks(a), Marks(b));
    assert |Marks(a)| == |multiset(Marks(a))|;
  }

  /** The average lies between the lowest and the highest graded attempt's mark. */
  lemma AverageBetweenMarks(s: seq<Attempt>, lo: real)
    requires BestGrade(Average, s).Some?
    requires forall i :: 0 <= i < |s| && s[i].sumGrades.Some? ==> lo <= s[i].sumGrades.value
    ensures BestGrade(Highest, s).Some? && lo <= BestGrade(Average, s).value <= BestGrade(Highest, s).value
  {
    var vs := Marks(s);
    HighestIsMaximum(s);
    var i0 :| 0 <= i0 < |s| && s[i0].sumGrades == Some(vs[0]);
    var hi := BestGrade(Highest, s).value;
    forall v | v in vs ensures lo <= v <= hi {
      var i :| 0 <= i < |s| && s[i].sumGrades == Some(v);
    }
    MeanBetween(vs, lo, hi);
  }

  // ---------------------------------------------------------------------
  // The best attempt (locallib.php, extendedquiz_calculate_best_attempt).

  /**
   * The "highest" scan for the best attempt: it starts from -1, a NULL mark
   * never wins (PHP compares NULL with a number as booleans), and a tie keeps
   * the earlier attempt. Indices are positions in `s`, starting at `from`.
   */
  function HighestAttempt(s: seq<Attempt>, from: nat, max: real, best: Option<nat>): (r: Option<nat>)
    requires from <= |s|
    requires best.Some? ==> best.value < from && s[best.value].sumGrades == Some(max)
    ensures r.Some? ==> r.value < |s| && s[r.value].sumGrades.Some? && max <= s[r.value].sumGrades.value
    ensures r.Some? ==> forall i :: from <= i < |s| && s[i].sumGrades.Some? ==> s[i].sumGrades.value <= s[r.value].sumGrades.value
    ensures r.Some? && best.Some? ==> r.value == best.value || r.value >= from
    ensures r.None? ==> best.None? && forall i :: from <= i < |s| && s[i].sumGrades.Some? ==> s[i].sumGrades.value <= max
    decreases |s| - from
  {
    if from == |s| then best
    else if s[from].sumGrades.Some? && s[from].sumGrades.value > max then
      HighestAttempt(s, from + 1, s[from].sumGrades.value, Some(from))
    else HighestAttempt(s, from + 1, max, best)
  }

  /**
   * The position of the best attempt, or NULL (no attempts, or none graded
   * above -1 for "highest"). "Average" has no single best attempt and takes
   * the last one, as "last" does.
   */
  function BestAttempt(how: GradeMethod, s: seq<Attempt>): (r: Option<nat>)
    ensures r.Some? ==> r.value < |s|
    // Apart from "highest", there is a best attempt exactly when there is an attempt.
    ensures how != Highest ==> (r.None? <==> |s| == 0)
    ensures how == First ==> r == (if |s| == 0 then None else Some(0))
    ensures how == Last || how == Average ==> r == (if |s| == 0 then None else Some(|s| - 1))
    // On attempts in attempt order, "first" is the lowest-numbered attempt, "last" and "average" the highest-numbered.
    ensures how == First && r.Some? && Ascending(s) ==> forall i :: 0 <= i < |s| ==> s[r.value].number <= s[i].number
    ensures (how == Last || how == Average) && r.Some? && Ascending(s) ==> forall i :: 0 <= i < |s| ==> s[i].number <= s[r.value].number
  {
    match how
    case First => if |s| == 0 then None else Some(0)
    case Last => if |s| == 0 then None else Some(|s| - 1)
    case Average => if |s| == 0 then None else Some(|s| - 1)
    case Highest => HighestAttempt(s, 0, -1.0, None)
  }

  /** Under "first" and "last" the best attempt carries exactly the best grade, and exists exactly when there is an attempt. */
  lemma BestAttemptCarriesBestGrade(how: GradeMethod, s: seq<Attempt>)
    requires how == First || how == Last
    ensures BestAttempt(how, s).None? <==> |s| == 0
    ensures BestAttempt(how, s).Some? ==> s[BestAttempt(how, s).value].sumGrades == BestGrade(how, s)
  {
  }

  /** The best attempt of the fetched attempts: "first" is the lowest attempt number, "last" and "average" the highest. */
  lemma FetchedBestAttemptByNumber(how: GradeMethod, table: seq<Attempt>, quiz: nat, user: nat, a: Attempt)
    requires how != Highest
    requires a in table && Selected(a, quiz, user, FinishedStates, false)
    ensures var s := UserAttempts(table, quiz, user, FinishedStates, false);
            var b := BestAttempt(how, s);
            b.Some? && (how == First ==> s[b.value].number <= a.number) && (how != First ==> a.number <= s[b.value].number)
  {
    var s := UserAttempts(table, quiz, user, FinishedStates, false);
    assert a in s;
    var k :| 0 <= k < |s| && s[k] == a;
  }

  /** When marks are not below -1, the best attempt under "highest" carries exactly the highest mark. */
  lemma BestAttemptHasBestGrade(s: seq<Attempt>)
    requires forall i :: 0 <= i < |s| && s[i].sumGrades.Some? ==> s[i].sumGrades.value > -1.0
    ensures var b := BestAttempt(Highest, s);
            (b.None? <==> BestGrade(Highest, s).None?) &&
            (b.Some? ==> s[b.value].sumGrades == BestGrade(Highest, s))
  {
    HighestIsMaximum(s);
    var b := BestAttempt(Highest, s);
    var g := BestGrade(Highest, s);
    if b.Some? {
      var i :| 0 <= i < |s| && s[i].sumGrades == g;
    }
  }

  // ---------------------------------------------------------------------
  // Rescaling (locallib.php, extendedquiz_rescale_grade; lib.php, extendedquiz_has_grades).

  /** Whether the quiz is graded: maximum grade and total marks both not negligible. */
  predicate HasGrades(grade: real, sumGrades: real) {
    grade >= Epsilon && sumGrades >= Epsilon
  }

  /** A raw mark out of `sumGrades` as a grade out of `grade`; 0 when the total is negligible; NULL stays NULL. */
  function Rescale(raw: Option<real>, grade: real, sumGrades: real): (r: Option<real>)
    ensures r.None? <==> raw.None?
    ensures raw.Some? && sumGrades < Epsilon ==> r == Some(0.0)
  {
    if raw.None? then None
    else if sumGrades >= Epsilon then Some(raw.value * grade / sumGrades)
    else Some(0.0)
  }

  /** With a non-negligible total the rescaled grade is in the same proportion to the maximum as the raw mark to the total. */
  lemma RescaleKeepsProportion(raw: real, grade: real, sumGrades: real)
    requires sumGrades >= Epsilon
    ensures Rescale(Some(raw), grade, sumGrades).value * sumGrades == raw * grade
  {
  }

  /** In a graded quiz both divisors are non-zero, and a mark within the total rescales to within the maximum grade. */
  lemma HasGradesBoundsRescale(raw: real, grade: real, sumGrades: real)
    requires HasGrades(grade, sumGrades)
    requires 0.0 <= raw <= sumGrades
    ensures grade != 0.0 && sumGrades != 0.0
    ensures 0.0 <= Rescale(Some(raw), grade, sumGrades).value <= grade
  {
    var r := Rescale(Some(raw), grade, sumGrades).value;
    RescaleKeepsProportion(raw, grade, sumGrades);
    assert raw * grade <= sumGrades * grade;
  }

  /** Rescaling keeps the order of raw marks. */
  lemma RescaleMonotonic(a: real, b: real, grade: real, sumGrades: real)
    requires a <= b && grade >= 0.0
    ensures Rescale(Some(a), grade, sumGrades).value <= Rescale(Some(b), grade, sumGrades).value
  {
    if sumGrades >= Epsilon {
      assert a * grade <= b * grade;
      var ra := Rescale(Some(a), grade, sumGrades).value;
      var rb := Rescale(Some(b), grade, sumGrades).value;
      if ra > rb {
        assert ra * sumGrades > rb * sumGrades;
      }
    }
  }
}
