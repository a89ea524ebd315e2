/**
 * The number-of-attempts access rule (accessrule/numattempts/rule.php): a
 * quiz that allows a limited number of attempts gets a rule that refuses a
 * new attempt once that many have been made; an unlimited quiz gets none.
 */
module NumAttempts {
  import opened Wrappers
  import Overrides

  /** The rule for a quiz that allows `attempts` attempts. */
  datatype Rule = Rule(attempts: int)

  /** Why a new attempt is refused. */
  datatype Reason = NoMoreAttempts

  /** The rule for the attempts the quiz allows this user; 0 means unlimited and gives no rule (make). */
  function Make(attemptsAllowed: int): (r: Option<Rule>)
    ensures r.None? <==> attemptsAllowed == 0
    ensures r.Some? ==> r.value.attempts == attemptsAllowed
  {
    if attemptsAllowed == 0 then None else Some(Rule(attemptsAllowed))
  }

  /** A reason to refuse another attempt after `numPrevAttempts`, or None to allow it (prevent_new_attempt). */
  function PreventNewAttempt(rule: Rule, numPrevAttempts: nat): (r: Option<Reason>)
    ensures r.Some? <==> numPrevAttempts >= rule.attempts
  {
    if numPrevAttempts >= rule.attempts then Some(NoMoreAttempts) else None
  }

  /** Whether the user has used up the attempts (is_finished). */
  predicate IsFinished(rule: Rule, numPrevAttempts: nat): (r: bool)
    ensures r <==> PreventNewAttempt(rule, numPrevAttempts).Some?
  {
    numPrevAttempts >= rule.attempts
  }

  /** A new attempt is refused exactly when the user is finished. */
  lemma PreventIffFinished(rule: Rule, numPrevAttempts: nat)
    ensures PreventNewAttempt(rule, numPrevAttempts).Some? <==> IsFinished(rule, numPrevAttempts)
  {
  }

  /** Once refused, always refused: more attempts never reopen the quiz. */
  lemma PreventMonotonic(rule: Rule, n: nat, m: nat)
    requires n <= m
    ensures PreventNewAttempt(rule, n).Some? ==> PreventNewAttempt(rule, m).Some?
    ensures IsFinished(rule, n) ==> IsFinished(rule, m)
  {
  }

  /** A quiz allowing `k > 0` attempts allows exactly the first `k`. */
  lemma AllowsExactly(k: int, numPrevAttempts: nat)
    requires k > 0
    ensures Make(k).Some?
    ensures PreventNewAttempt(Make(k).value, numPrevAttempts).None? <==> numPrevAttempts < k
  {
  }

  /** The rule for one user, from the quiz settings after that user's overrides are applied. */
  function MakeForUser(q: Overrides.QuizAccess, user: nat, groups: set<nat>, table: seq<Overrides.Override>): Option<Rule> {
    Make(Overrides.EffectiveAccess(q, user, groups, table).attempts)
  }

  /**
   * A user override of the attempt count decides the rule: 0 lifts the
   * limit whatever the quiz and the groups say, and any other count
   * becomes the limit.
   */
  lemma UserOverrideDecidesRule(q: Overrides.QuizAccess, user: nat, groups: set<nat>, table: seq<Overrides.Override>)
    requires Overrides.UserFields(table, q.id, user).attempts.Some?
    ensures var n := Overrides.UserFields(table, q.id, user).attempts.value;
            (n == 0 ==> MakeForUser(q, user, groups, table).None?) &&
            (n != 0 ==> MakeForUser(q, user, groups, table) == Some(Rule(n)))
  {
    assert Overrides.Get(Overrides.UserFields(table, q.id, user), Overrides.Attempts).Some?;
  }

  /** Without a user value, a group override of 0 attempts lifts the limit for every member. */
  lemma GroupUnlimitedLiftsLimit(q: Overrides.QuizAccess, user: nat, groups: set<nat>, table: seq<Overrides.Override>, o: Overrides.Override)
    requires Overrides.UserFields(table, q.id, user).attempts.None?
    requires o in table && Overrides.AppliesToGroups(o, q.id, groups) && o.fields.attempts == Some(0)
    ensures MakeForUser(q, user, groups, table).None?
  {
    Overrides.AppliedValueIsDefined(q, groups, table, o, Overrides.Attempts);
    Overrides.GroupUnlimitedDominates(q, user, groups, table, Overrides.Attempts);
  }
}
