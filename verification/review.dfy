/**
 * Review options (lib.php, locallib.php): which parts of an attempt a student
 * may look at, stored per quiz as one bit mask per kind of information with a
 * bit for each moment relative to the attempt, and the display options and
 * grade-item visibility derived from those masks.
 */
module Review {
  import Grades

  /** The four moments a review setting distinguishes, in the order they happen. */
  datatype When = During | ImmediatelyAfter | LaterWhileOpen | AfterClose {
    /** The bit of this moment in a review mask (mod_extendedquiz_display_options). */
    function Bit(): (b: bv32)
      ensures b != 0
    {
      match this
      case During => 0x10000
      case ImmediatelyAfter => 0x01000
      case LaterWhileOpen => 0x00100
      case AfterClose => 0x00010
    }

    /** Position in time: 0 during the attempt up to 3 after the quiz closed. */
    function Rank(): nat {
      match this
      case During => 0
      case ImmediatelyAfter => 1
      case LaterWhileOpen => 2
      case AfterClose => 3
    }
  }

  /** Every bit a review mask may carry. */
  const AllBits: bv32 := 0x11110

  /** Display levels of question_display_options (defined outside this plugin). */
  const Hidden: nat := 0
  const Visible: nat := 1
  const MaxOnly: nat := 1
  const MarkAndMax: nat := 2

  /** Seconds after finishing during which an attempt counts as "immediately after". */
  const ImmediatelyAfterSeconds: int := 120

  /** Whether `mask` has the bit of `w` set. */
  predicate IsSet(mask: bv32, w: When) {
    mask & w.Bit() != 0
  }

  /** The bits are distinct: each moment has a bit of its own. */
  lemma BitsDistinct(v: When, w: When)
    ensures v.Bit() & w.Bit() != 0 <==> v == w
  {
  }

  // ---------------------------------------------------------------------
  // From the settings form to the stored masks.

  /** The moments ticked for one review field on the settings form. */
  type Ticked = set<When>

  /** The stored mask for one field: the bits of the ticked moments (extendedquiz_review_option_form_to_db). */
  function FormToDb(ticked: Ticked): (mask: bv32)
    ensures mask & !AllBits == 0
  {
    (if During in ticked then During.Bit() else 0)
    | (if ImmediatelyAfter in ticked then ImmediatelyAfter.Bit() else 0)
    | (if LaterWhileOpen in ticked then LaterWhileOpen.Bit() else 0)
    | (if AfterClose in ticked then AfterClose.Bit() else 0)
  }

  /** The moments whose bit is set in a stored mask, as the form shows them. */
  function DbToForm(mask: bv32): (ticked: Ticked)
    ensures forall w :: w in ticked <==> IsSet(mask, w)
  {
    set w: When | w in {During, ImmediatelyAfter, LaterWhileOpen, AfterClose} && IsSet(mask, w)
  }

  /** A ticked moment has its bit set and an unticked one has not. */
  lemma FormToDbSetsTicked(ticked: Ticked, w: When)
    ensures IsSet(FormToDb(ticked), w) <==> w in ticked
  {
  }

  /** Reading a stored mask back gives the ticked moments. */
  lemma FormRoundTrip(ticked: Ticked)
    ensures DbToForm(FormToDb(ticked)) == ticked
  {
    forall w | w in ticked
      ensures w in DbToForm(FormToDb(ticked))
    {
      FormToDbSetsTicked(ticked, w);
    }
    forall w | w in DbToForm(FormToDb(ticked))
      ensures w in ticked
    {
      FormToDbSetsTicked(ticked, w);
    }
  }

  /** Storing what a mask shows gives the mask back, less any bit that is not a review bit. */
  lemma DbRoundTrip(mask: bv32)
    ensures FormToDb(DbToForm(mask)) == mask & AllBits
  {
  }

  /** The ticks for the seven review fields. */
  datatype ReviewForm = ReviewForm(
    attempt: Ticked,
    correctness: Ticked,
    marks: Ticked,
    specificFeedback: Ticked,
    generalFeedback: Ticked,
    rightAnswer: Ticked,
    overallFeedback: Ticked)

  /** The stored review masks of a quiz. */
  datatype ReviewMasks = ReviewMasks(
    attempt: bv32,
    correctness: bv32,
    marks: bv32,
    specificFeedback: bv32,
    generalFeedback: bv32,
    rightAnswer: bv32,
    overallFeedback: bv32)

  /**
   * The review part of extendedquiz_process_options: every field is stored
   * from its ticks, the attempt itself is always reviewable during the
   * attempt, and the overall feedback never is.
   */
  function ProcessReviewOptions(form: ReviewForm): (m: ReviewMasks)
    ensures IsSet(m.attempt, During) && !IsSet(m.overallFeedback, During)
  {
    ReviewMasks(
      FormToDb(form.attempt) | During.Bit(),
      FormToDb(form.correctness),
      FormToDb(form.marks),
      FormToDb(form.specificFeedback),
      FormToDb(form.generalFeedback),
      FormToDb(form.rightAnswer),
      FormToDb(form.overallFeedback) & !During.Bit())
  }

  /** Apart from the two forced During bits, each stored bit is exactly a tick on the form. */
  lemma ProcessedMasksFollowForm(form: ReviewForm, w: When)
    ensures IsSet(ProcessReviewOptions(form).attempt, w) <==> w == During || w in form.attempt
    ensures IsSet(ProcessReviewOptions(form).correctness, w) <==> w in form.correctness
    ensures IsSet(ProcessReviewOptions(form).marks, w) <==> w in form.marks
    ensures IsSet(ProcessReviewOptions(form).specificFeedback, w) <==> w in form.specificFeedback
    ensures IsSet(ProcessReviewOptions(form).generalFeedback, w) <==> w in form.generalFeedback
    ensures IsSet(ProcessReviewOptions(form).rightAnswer, w) <==> w in form.rightAnswer
    ensures IsSet(ProcessReviewOptions(form).overallFeedback, w) <==> w != During && w in form.overallFeedback
  {
    FormToDbSetsTicked(form.attempt, w);
    FormToDbSetsTicked(form.correctness, w);
    FormToDbSetsTicked(form.marks, w);
    FormToDbSetsTicked(form.specificFeedback, w);
    FormToDbSetsTicked(form.generalFeedback, w);
    FormToDbSetsTicked(form.rightAnswer, w);
    FormToDbSetsTicked(form.overallFeedback, w);
  }

  // ---------------------------------------------------------------------
  // From the stored masks to display options.

  /** The review settings of a quiz that the display options read. */
  datatype QuizReview = QuizReview(masks: ReviewMasks, decimalPoints: int, questionDecimalPoints: int, timeClose: int)

  /** What a student may see of an attempt at one moment. */
  datatype DisplayOptions = DisplayOptions(
    attempt: bool,
    correctness: nat,
    marks: nat,
    feedback: nat,
    generalFeedback: nat,
    rightAnswer: nat,
    overallFeedback: nat,
    numPartsCorrect: nat,
    markDp: int)

  /** `whenSet` if the moment's bit is in the mask, `whenNotSet` otherwise (mod_extendedquiz_display_options::extract). */
  function Extract<T>(mask: bv32, w: When, whenSet: T, whenNotSet: T): T {
    if IsSet(mask, w) then whenSet else whenNotSet
  }

  /** The display options of a quiz at a moment (mod_extendedquiz_display_options::make_from_quiz). */
  function MakeFromQuiz(q: QuizReview, w: When): (o: DisplayOptions)
    ensures o.marks == MaxOnly || o.marks == MarkAndMax
    ensures o.numPartsCorrect == o.feedback
  {
    var feedback := Extract(q.masks.specificFeedback, w, Visible, Hidden);
    DisplayOptions(
      Extract(q.masks.attempt, w, true, false),
      Extract(q.masks.correctness, w, Visible, Hidden),
      Extract(q.masks.marks, w, MarkAndMax, MaxOnly),
      feedback,
      Extract(q.masks.generalFeedback, w, Visible, Hidden),
      Extract(q.masks.rightAnswer, w, Visible, Hidden),
      Extract(q.masks.overallFeedback, w, Visible, Hidden),
      feedback,
      if q.questionDecimalPoints != -1 then q.questionDecimalPoints else q.decimalPoints)
  }

  /**
   * From the form to what a student sees: at any moment, each option is
   * shown exactly when its moment was ticked (marks fall back to the
   * maximum only), the attempt is always shown during the attempt and the
   * overall feedback never is.
   */
  lemma DisplayFollowsForm(form: ReviewForm, q: QuizReview, w: When)
    requires q.masks == ProcessReviewOptions(form)
    ensures MakeFromQuiz(q, w).attempt <==> w == During || w in form.attempt
    ensures MakeFromQuiz(q, w).correctness == (if w in form.correctness then Visible else Hidden)
    ensures MakeFromQuiz(q, w).marks == (if w in form.marks then MarkAndMax else MaxOnly)
    ensures MakeFromQuiz(q, w).feedback == (if w in form.specificFeedback then Visible else Hidden)
    ensures MakeFromQuiz(q, w).generalFeedback == (if w in form.generalFeedback then Visible else Hidden)
    ensures MakeFromQuiz(q, w).rightAnswer == (if w in form.rightAnswer then Visible else Hidden)
    ensures MakeFromQuiz(q, w).overallFeedback == (if w != During && w in form.overallFeedback then Visible else Hidden)
  {
    ProcessedMasksFollowForm(form, w);
  }

  /** The quiz-wide decimal places apply only when the question setting is -1. */
  lemma MarkDecimalPoints(q: QuizReview, w: When)
    ensures q.questionDecimalPoints == -1 ==> MakeFromQuiz(q, w).markDp == q.decimalPoints
    ensures q.questionDecimalPoints != -1 ==> MakeFromQuiz(q, w).markDp == q.questionDecimalPoints
  {
  }

  // ---------------------------------------------------------------------
  // The moment an attempt is in (extendedquiz_attempt_state).

  /**
   * The review moment of an attempt at time `now`: during it while in
   * progress, immediately after for two minutes after finishing, then later
   * while the quiz is open (a zero close time never closes), then after close.
   */
  function AttemptState(timeClose: int, a: Grades.Attempt, now: int): (w: When)
    ensures w == During <==> a.state == Grades.InProgress
    ensures w == AfterClose ==> timeClose != 0 && timeClose <= now
  {
    if a.state == Grades.InProgress then During
    else if now < a.timeFinish + ImmediatelyAfterSeconds then ImmediatelyAfter
    else if timeClose == 0 || now < timeClose then LaterWhileOpen
    else AfterClose
  }

  /** As time passes, an attempt only moves forward through the moments. */
  lemma AttemptStateMonotonic(timeClose: int, a: Grades.Attempt, now: int, later: int)
    requires now <= later
    ensures AttemptState(timeClose, a, now).Rank() <= AttemptState(timeClose, a, later).Rank()
  {
  }

  /** A finished attempt in a quiz that closed more than two minutes after it reaches After close. */
  lemma AttemptStateEventuallyClosed(timeClose: int, a: Grades.Attempt, now: int)
    requires a.state != Grades.InProgress
    requires timeClose != 0 && timeClose <= now && a.timeFinish + ImmediatelyAfterSeconds <= now
    ensures AttemptState(timeClose, a, now) == AfterClose
  {
  }

  /** The display options for one attempt at time `now`. */
  function OptionsAt(q: QuizReview, a: Grades.Attempt, now: int): DisplayOptions {
    MakeFromQuiz(q, AttemptState(q.timeClose, a, now))
  }

  // ---------------------------------------------------------------------
  // Options combined over several attempts (extendedquiz_get_combined_reviewoptions).

  /** The four options combined as flags. */
  datatype Flag = Feedback | GeneralFeedback | RightAnswer | OverallFeedback

  /** Whether the options show the flag's information. */
  predicate Shows(o: DisplayOptions, f: Flag) {
    match f
    case Feedback => o.feedback != Hidden
    case GeneralFeedback => o.generalFeedback != Hidden
    case RightAnswer => o.rightAnswer != Hidden
    case OverallFeedback => o.overallFeedback != Hidden
  }

  /** Feedback, general feedback, right answer and overall feedback as flags, and the marks level. */
  datatype Combined = Combined(feedback: bool, generalFeedback: bool, rightAnswer: bool, overallFeedback: bool, marks: nat) {
    function Get(f: Flag): bool {
      match f
      case Feedback => feedback
      case GeneralFeedback => generalFeedback
      case RightAnswer => rightAnswer
      case OverallFeedback => overallFeedback
    }
  }

  /** Whether some attempt shows the flag: the `||` fold starting from false. */
  function AnyShows(q: QuizReview, attempts: seq<Grades.Attempt>, now: int, f: Flag): (b: bool)
    ensures b <==> exists i :: 0 <= i < |attempts| && Shows(OptionsAt(q, attempts[i], now), f)
  {
    if |attempts| == 0 then false
    else
      assert forall i :: 1 <= i < |attempts| ==> attempts[i] == attempts[1..][i - 1];
      Shows(OptionsAt(q, attempts[0], now), f) || AnyShows(q, attempts[1..], now, f)
  }

  /** Whether every attempt shows the flag: the `&&` fold starting from true. */
  function AllShow(q: QuizReview, attempts: seq<Grades.Attempt>, now: int, f: Flag): (b: bool)
    ensures b <==> forall i :: 0 <= i < |attempts| ==> Shows(OptionsAt(q, attempts[i], now), f)
  {
    if |attempts| == 0 then true
    else
      assert forall i :: 1 <= i < |attempts| ==> attempts[i] == attempts[1..][i - 1];
      Shows(OptionsAt(q, attempts[0], now), f) && AllShow(q, attempts[1..], now, f)
  }

  /** The best marks level over the attempts: the `max` fold starting from Hidden. */
  function MaxMarks(q: QuizReview, attempts: seq<Grades.Attempt>, now: int): (m: nat)
    ensures forall i :: 0 <= i < |attempts| ==> OptionsAt(q, attempts[i], now).marks <= m
    ensures m == Hidden <==> |attempts| == 0
    ensures |attempts| > 0 ==> exists i :: 0 <= i < |attempts| && OptionsAt(q, attempts[i], now).marks == m
  {
    if |attempts| == 0 then Hidden
    else
      var rest := MaxMarks(q, attempts[1..], now);
      var here := OptionsAt(q, attempts[0], now).marks;
      assert forall i :: 1 <= i < |attempts| ==> attempts[i] == attempts[1..][i - 1];
      if rest < here then here else rest
  }

  /** The worst marks level over the attempts: the `min` fold starting from MarkAndMax. */
  function MinMarks(q: QuizReview, attempts: seq<Grades.Attempt>, now: int): (m: nat)
    ensures forall i :: 0 <= i < |attempts| ==> m <= OptionsAt(q, attempts[i], now).marks
    ensures |attempts| == 0 ==> m == MarkAndMax
    ensures |attempts| > 0 ==> exists i :: 0 <= i < |attempts| && OptionsAt(q, attempts[i], now).marks == m
  {
    if |attempts| == 0 then MarkAndMax
    else
      var rest := MinMarks(q, attempts[1..], now);
      var here := OptionsAt(q, attempts[0], now).marks;
      assert forall i :: 1 <= i < |attempts| ==> attempts[i] == attempts[1..][i - 1];
      if here < rest then here else rest
  }

  /** What at least one attempt shows, and the best marks level. */
  function CombineSome(q: QuizReview, attempts: seq<Grades.Attempt>, now: int): Combined {
    Combined(
      AnyShows(q, attempts, now, Feedback),
      AnyShows(q, attempts, now, GeneralFeedback),
      AnyShows(q, attempts, now, RightAnswer),
      AnyShows(q, attempts, now, OverallFeedback),
      MaxMarks(q, attempts, now))
  }

  /** What every attempt shows, and the worst marks level. */
  function CombineAll(q: QuizReview, attempts: seq<Grades.Attempt>, now: int): Combined {
    Combined(
      AllShow(q, attempts, now, Feedback),
      AllShow(q, attempts, now, GeneralFeedback),
      AllShow(q, attempts, now, RightAnswer),
      AllShow(q, attempts, now, OverallFeedback),
      MinMarks(q, attempts, now))
  }

  /** The pair (some, all) of extendedquiz_get_combined_reviewoptions. */
  function CombinedReviewOptions(q: QuizReview, attempts: seq<Grades.Attempt>, now: int): (r: (Combined, Combined))
    // With no attempts "some" shows nothing and "all" shows everything.
    ensures |attempts| == 0 ==> r.0.marks == Hidden && r.1.marks == MarkAndMax
    ensures |attempts| == 0 ==> forall f: Flag :: !r.0.Get(f) && r.1.Get(f)
    // Otherwise whatever every attempt shows, some attempt shows.
    ensures |attempts| > 0 ==> r.1.marks <= r.0.marks
    ensures |attempts| > 0 ==> forall f: Flag :: r.1.Get(f) ==> r.0.Get(f)
  {
    var some := CombineSome(q, attempts, now);
    var all := CombineAll(q, attempts, now);
    assert |attempts| > 0 ==> all.marks <= OptionsAt(q, attempts[0], now).marks <= some.marks;
    assert |attempts| > 0 ==> forall f: Flag :: all.Get(f) ==> Shows(OptionsAt(q, attempts[0], now), f);
    (some, all)
  }

  /**
   * The "some" options show a flag exactly when at least one attempt shows
   * it, the "all" options exactly when every attempt does.
   */
  lemma CombinedFlags(q: QuizReview, attempts: seq<Grades.Attempt>, now: int, f: Flag)
    ensures CombinedReviewOptions(q, attempts, now).0.Get(f) <==>
              exists i :: 0 <= i < |attempts| && Shows(OptionsAt(q, attempts[i], now), f)
    ensures CombinedReviewOptions(q, attempts, now).1.Get(f) <==>
              forall i :: 0 <= i < |attempts| ==> Shows(OptionsAt(q, attempts[i], now), f)
  {
    assert CombineSome(q, attempts, now).Get(f) == AnyShows(q, attempts, now, f);
    assert CombineAll(q, attempts, now).Get(f) == AllShow(q, attempts, now, f);
  }

  /** The "some" marks level is the best over the attempts (Hidden for none), the "all" level the worst (MarkAndMax for none). */
  lemma CombinedMarks(q: QuizReview, attempts: seq<Grades.Attempt>, now: int)
    ensures var (some, all) := CombinedReviewOptions(q, attempts, now);
            (forall i :: 0 <= i < |attempts| ==> all.marks <= OptionsAt(q, attempts[i], now).marks <= some.marks) &&
            (|attempts| == 0 <==> some.marks == Hidden) &&
            (|attempts| == 0 ==> all.marks == MarkAndMax) &&
            (|attempts| > 0 ==>
               (exists i :: 0 <= i < |attempts| && OptionsAt(q, attempts[i], now).marks == some.marks) &&
               (exists j :: 0 <= j < |attempts| && OptionsAt(q, attempts[j], now).marks == all.marks))
  {
  }

  /** Whatever every attempt shows, some attempt shows; the worst marks never exceed the best. */
  lemma AllImpliesSome(q: QuizReview, attempts: seq<Grades.Attempt>, now: int, f: Flag)
    requires |attempts| > 0
    ensures CombineAll(q, attempts, now).Get(f) ==> CombineSome(q, attempts, now).Get(f)
    ensures CombineAll(q, attempts, now).marks <= CombineSome(q, attempts, now).marks
  {
    CombinedFlags(q, attempts, now, f);
    CombinedMarks(q, attempts, now);
    var o := OptionsAt(q, attempts[0], now);
    assert Shows(o, f) ==> CombineSome(q, attempts, now).Get(f);
  }

  /** With no attempts nothing is shown by some and everything by all. */
  lemma CombinedOfNoAttempts(q: QuizReview, now: int, f: Flag)
    ensures !CombineSome(q, [], now).Get(f) && CombineSome(q, [], now).marks == Hidden
    ensures CombineAll(q, [], now).Get(f) && CombineAll(q, [], now).marks == MarkAndMax
  {
  }

  // ---------------------------------------------------------------------
  // Grade-item visibility (extendedquiz_grade_item_update).

  /**
   * The `hidden` value of the quiz's grade item: 1 (hidden), a date until
   * which it is hidden, or 0 (shown); a shown item is still hidden when the
   * course module itself is not visible.
   */
  function GradeItemHidden(q: QuizReview, moduleVisible: bool): (r: int)
    ensures r == 0 || r == 1 || (r == q.timeClose && q.timeClose != 0)
    ensures r == 0 ==> moduleVisible
  {
    var openMarks := MakeFromQuiz(q, LaterWhileOpen).marks;
    var closedMarks := MakeFromQuiz(q, AfterClose).marks;
    var hidden :=
      if openMarks < MarkAndMax && closedMarks < MarkAndMax then 1
      else if openMarks < MarkAndMax && closedMarks >= MarkAndMax then (if q.timeClose != 0 then q.timeClose else 1)
      else 0;
    if hidden == 0 then (if moduleVisible then 0 else 1) else hidden
  }

  /**
   * The policy in terms of the marks review bits: hidden for good when marks
   * are shown neither later while open nor after close, hidden until the
   * close date when shown only after close, and otherwise shown with the module.
   */
  lemma GradeItemHiddenPolicy(q: QuizReview, moduleVisible: bool)
    ensures !IsSet(q.masks.marks, LaterWhileOpen) && !IsSet(q.masks.marks, AfterClose) ==>
              GradeItemHidden(q, moduleVisible) == 1
    ensures !IsSet(q.masks.marks, LaterWhileOpen) && IsSet(q.masks.marks, AfterClose) ==>
              GradeItemHidden(q, moduleVisible) == (if q.timeClose != 0 then q.timeClose else 1)
    ensures IsSet(q.masks.marks, LaterWhileOpen) ==>
              GradeItemHidden(q, moduleVisible) == (if moduleVisible then 0 else 1)
  {
  }

  /** The grade item is shown exactly when marks are shown later while open and the module is visible. */
  lemma GradeItemShown(form: ReviewForm, q: QuizReview, moduleVisible: bool)
    requires q.masks == ProcessReviewOptions(form)
    ensures GradeItemHidden(q, moduleVisible) == 0 <==> LaterWhileOpen in form.marks && moduleVisible
  {
    ProcessedMasksFollowForm(form, LaterWhileOpen);
    ProcessedMasksFollowForm(form, AfterClose);
  }
}
