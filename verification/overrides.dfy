/**
 * Override resolution: how a quiz's own access settings are combined with
 * the override of one user and the overrides of that user's groups
 * (lib.php, extendedquiz_update_effective_access), the SQL restatement of the
 * same rule for close time and time limit, the next state-check time of an
 * open attempt, and the course-reset date shift of override rows.
 */
module Overrides {
  import opened Wrappers

  /** The five settings an override row may carry; `None` is SQL NULL, i.e. "unset". */
  datatype Fields = Fields(
    timeOpen: Option<int>,
    timeClose: Option<int>,
    timeLimit: Option<int>,
    attempts: Option<int>,
    password: Option<string>)

  /** What an absent override row contributes: nothing. */
  const Unset := Fields(None, None, None, None, None)

  /** A row of the overrides table. A well-formed row sets exactly one of `userId`, `groupId`. */
  datatype Override = Override(
    id: nat,
    quiz: nat,
    userId: Option<nat>,
    groupId: Option<nat>,
    fields: Fields)

  /** The access settings of a quiz. `extraPasswords` is only ever set by resolution. */
  datatype QuizAccess = QuizAccess(
    id: nat,
    timeOpen: int,
    timeClose: int,
    timeLimit: int,
    attempts: int,
    password: string,
    extraPasswords: Option<seq<string>>)

  /** The four integer settings; they share one resolution scheme. */
  datatype IntField = TimeOpen | TimeClose | TimeLimit | Attempts

  function Get(f: Fields, k: IntField): Option<int> {
    match k
    case TimeOpen => f.timeOpen
    case TimeClose => f.timeClose
    case TimeLimit => f.timeLimit
    case Attempts => f.attempts
  }

  function Setting(q: QuizAccess, k: IntField): int {
    match k
    case TimeOpen => q.timeOpen
    case TimeClose => q.timeClose
    case TimeLimit => q.timeLimit
    case Attempts => q.attempts
  }

  /** The row for (quiz, user), if any: the first match, as a single-record fetch returns it. */
  function UserRow(table: seq<Override>, quiz: nat, user: nat): (r: Option<Override>)
    ensures r.Some? ==> r.value in table && r.value.quiz == quiz && r.value.userId == Some(user)
    ensures r.None? ==> forall o :: o in table ==> !(o.quiz == quiz && o.userId == Some(user))
  {
    if |table| == 0 then None
    else if table[0].quiz == quiz && table[0].userId == Some(user) then Some(table[0])
    else UserRow(table[1..], quiz, user)
  }

  /** The user's own override values; all unset when there is no row. */
  function UserFields(table: seq<Override>, quiz: nat, user: nat): Fields {
    match UserRow(table, quiz, user)
    case Some(o) => o.fields
    case None => Unset
  }

  predicate AppliesToGroups(o: Override, quiz: nat, groups: set<nat>) {
    o.quiz == quiz && o.groupId.Some? && o.groupId.value in groups
  }

  /** The rows of this quiz whose group is one of the user's groups, in table order. */
  function GroupRows(table: seq<Override>, quiz: nat, groups: set<nat>): (rows: seq<Override>)
    ensures forall o :: o in rows <==> o in table && AppliesToGroups(o, quiz, groups)
    ensures (forall o :: o in table ==> !AppliesToGroups(o, quiz, groups)) ==> rows == []
  {
    if |table| == 0 then []
    else if AppliesToGroups(table[0], quiz, groups) then [table[0]] + GroupRows(table[1..], quiz, groups)
    else GroupRows(table[1..], quiz, groups)
  }

  /** The values that the given rows define (non-null) for setting `k`, in row order. */
  function Defined(rows: seq<Override>, k: IntField): (vs: seq<int>)
    ensures forall i :: 0 <= i < |rows| && Get(rows[i].fields, k).Some? ==> Get(rows[i].fields, k).value in vs
    ensures forall v :: v in vs ==> exists i :: 0 <= i < |rows| && Get(rows[i].fields, k) == Some(v)
    ensures (forall i :: 0 <= i < |rows| ==> Get(rows[i].fields, k).None?) ==> vs == []
  {
    if |rows| == 0 then []
    else
      var rest := Defined(rows[1..], k);
      assert forall i :: 1 <= i < |rows| ==> rows[i] == rows[1..][i - 1];
      match Get(rows[0].fields, k)
      case Some(v) => [v] + rest
      case None => rest
  }

  /** The passwords the given rows define, in row order. */
  function Passwords(rows: seq<Override>): (ps: seq<string>)
    ensures forall p :: p in ps <==> exists o :: o in rows && o.fields.password == Some(p)
  {
    if |rows| == 0 then []
    else
      var rest := Passwords(rows[1..]);
      assert forall o :: o in rows[1..] ==> o in rows;
      assert forall o :: o in rows ==> o == rows[0] || o in rows[1..];
      match rows[0].fields.password
      case Some(p) => [p] + rest
      case None => rest
  }

  /** PHP `min` of a non-empty list: the earliest opening wins. */
  function MinOf(vs: seq<int>): (m: int)
    requires |vs| > 0
    ensures m in vs
    ensures forall v :: v in vs ==> m <= v
  {
    if |vs| == 1 then vs[0]
    else
      var rest := MinOf(vs[1..]);
      assert forall v :: v in vs ==> v == vs[0] || v in vs[1..];
      if vs[0] <= rest then vs[0] else rest
  }

  /** PHP `max` of a non-empty list. */
  function MaxOf(vs: seq<int>): (m: int)
    requires |vs| > 0
    ensures m in vs
    ensures forall v :: v in vs ==> v <= m
  {
    if |vs| == 1 then vs[0]
    else
      var rest := MaxOf(vs[1..]);
      assert forall v :: v in vs ==> v == vs[0] || v in vs[1..];
      if vs[0] >= rest then vs[0] else rest
  }

  /** The lenient combination of closing times, limits and attempt counts: 0 (unlimited) dominates, else the largest. */
  function Lenient(vs: seq<int>): (r: int)
    requires |vs| > 0
    ensures 0 in vs ==> r == 0
    ensures 0 !in vs ==> r in vs && forall v :: v in vs ==> v <= r
  {
    if 0 in vs then 0 else MaxOf(vs)
  }

  /** Combination of the group values of one setting. */
  function Combine(k: IntField, vs: seq<int>): int
    requires |vs| > 0
  {
    if k == TimeOpen then MinOf(vs) else Lenient(vs)
  }

  /** One integer setting: user value, else the group combination, else the quiz default. */
  function ResolveInt(user: Fields, rows: seq<Override>, k: IntField, default: int): int {
    if Get(user, k).Some? then Get(user, k).value
    else
      var vs := Defined(rows, k);
      if |vs| > 0 then Combine(k, vs) else default
  }

  /**
   * The effective access settings of `user` at quiz `q`, given the user's
   * groups in the quiz's course and the whole overrides table.
   */
  function EffectiveAccess(q: QuizAccess, user: nat, groups: set<nat>, table: seq<Override>): (r: QuizAccess)
    ensures r.id == q.id
    // A user value wins, whatever the groups say.
    ensures forall k :: Get(UserFields(table, q.id, user), k).Some? ==>
              Setting(r, k) == Get(UserFields(table, q.id, user), k).value
    ensures UserFields(table, q.id, user).password.Some? ==>
              r.password == UserFields(table, q.id, user).password.value && r.extraPasswords == q.extraPasswords
  {
    var u := UserFields(table, q.id, user);
    var rows := GroupRows(table, q.id, groups);
    var ps := Passwords(rows);
    var password :=
      if u.password.Some? then u.password.value
      else if |ps| > 0 then ps[0]
      else q.password;
    var extra :=
      if u.password.None? && |ps| > 1 then Some(ps[1..]) else q.extraPasswords;
    QuizAccess(
      q.id,
      ResolveInt(u, rows, TimeOpen, q.timeOpen),
      ResolveInt(u, rows, TimeClose, q.timeClose),
      ResolveInt(u, rows, TimeLimit, q.timeLimit),
      ResolveInt(u, rows, Attempts, q.attempts),
      password,
      extra)
  }

  /** The group values of setting `k` that apply to this user. */
  function GroupValues(q: QuizAccess, groups: set<nat>, table: seq<Override>, k: IntField): seq<int> {
    Defined(GroupRows(table, q.id, groups), k)
  }

  /** A group row that applies to the user contributes its value of `k` to the combination. */
  lemma AppliedValueIsDefined(q: QuizAccess, groups: set<nat>, table: seq<Override>, o: Override, k: IntField)
    requires o in table && AppliesToGroups(o, q.id, groups) && Get(o.fields, k).Some?
    ensures Get(o.fields, k).value in GroupValues(q, groups, table, k)
  {
    var rows := GroupRows(table, q.id, groups);
    assert o in rows;
    var i :| 0 <= i < |rows| && rows[i] == o;
  }

  /** Every combined value comes from some group row that applies to the user. */
  lemma DefinedValueIsApplied(q: QuizAccess, groups: set<nat>, table: seq<Override>, v: int, k: IntField)
    requires v in GroupValues(q, groups, table, k)
    ensures exists o :: o in table && AppliesToGroups(o, q.id, groups) && Get(o.fields, k) == Some(v)
  {
    var rows := GroupRows(table, q.id, groups);
    var i :| 0 <= i < |rows| && Get(rows[i].fields, k) == Some(v);
    assert rows[i] in rows;
  }

  /** Without a user value, the effective opening time is the earliest group opening time. */
  lemma GroupOpenIsEarliest(q: QuizAccess, user: nat, groups: set<nat>, table: seq<Override>)
    requires UserFields(table, q.id, user).timeOpen.None?
    requires |GroupValues(q, groups, table, TimeOpen)| > 0
    ensures var r := EffectiveAccess(q, user, groups, table).timeOpen;
            (exists o :: o in table && AppliesToGroups(o, q.id, groups) && o.fields.timeOpen == Some(r)) &&
            (forall o :: o in table && AppliesToGroups(o, q.id, groups) && o.fields.timeOpen.Some? ==>
               r <= o.fields.timeOpen.value)
  {
    var r := EffectiveAccess(q, user, groups, table).timeOpen;
    assert r == MinOf(GroupValues(q, groups, table, TimeOpen));
    DefinedValueIsApplied(q, groups, table, r, TimeOpen);
    forall o | o in table && AppliesToGroups(o, q.id, groups) && o.fields.timeOpen.Some?
      ensures r <= o.fields.timeOpen.value
    {
      AppliedValueIsDefined(q, groups, table, o, TimeOpen);
    }
  }

  /**
   * Without a user value, the effective closing time, time limit or attempt
   * count is 0 (unlimited) as soon as one group says 0, and the largest group
   * value otherwise.
   */
  lemma GroupUnlimitedDominates(q: QuizAccess, user: nat, groups: set<nat>, table: seq<Override>, k: IntField)
    requires k != TimeOpen
    requires Get(UserFields(table, q.id, user), k).None?
    requires |GroupValues(q, groups, table, k)| > 0
    ensures var r := Setting(EffectiveAccess(q, user, groups, table), k);
            ((exists o :: o in table && AppliesToGroups(o, q.id, groups) && Get(o.fields, k) == Some(0)) ==> r == 0) &&
            ((forall o :: o in table && AppliesToGroups(o, q.id, groups) ==> Get(o.fields, k) != Some(0)) ==>
               (exists o :: o in table && AppliesToGroups(o, q.id, groups) && Get(o.fields, k) == Some(r)) &&
               (forall o :: o in table && AppliesToGroups(o, q.id, groups) && Get(o.fields, k).Some? ==>
                  Get(o.fields, k).value <= r))
  {
    var vs := GroupValues(q, groups, table, k);
    var r := Setting(EffectiveAccess(q, user, groups, table), k);
    assert r == Lenient(vs);
    if exists o :: o in table && AppliesToGroups(o, q.id, groups) && Get(o.fields, k) == Some(0) {
      var o :| o in table && AppliesToGroups(o, q.id, groups) && Get(o.fields, k) == Some(0);
      AppliedValueIsDefined(q, groups, table, o, k);
    }
    if forall o :: o in table && AppliesToGroups(o, q.id, groups) ==> Get(o.fields, k) != Some(0) {
      if 0 in vs {
        DefinedValueIsApplied(q, groups, table, 0, k);
      }
      DefinedValueIsApplied(q, groups, table, r, k);
      forall o | o in table && AppliesToGroups(o, q.id, groups) && Get(o.fields, k).Some?
        ensures Get(o.fields, k).value <= r
      {
        AppliedValueIsDefined(q, groups, table, o, k);
      }
    }
  }

  /** With neither a user value nor any group value, the quiz's own setting stays. */
  lemma NoValueKeepsSetting(q: QuizAccess, user: nat, groups: set<nat>, table: seq<Override>, k: IntField)
    requires Get(UserFields(table, q.id, user), k).None?
    requires forall o :: o in table && AppliesToGroups(o, q.id, groups) ==> Get(o.fields, k).None?
    ensures Setting(EffectiveAccess(q, user, groups, table), k) == Setting(q, k)
  {
    var rows := GroupRows(table, q.id, groups);
    forall i | 0 <= i < |rows| ensures Get(rows[i].fields, k).None? {
      assert rows[i] in rows;
    }
  }

  /**
   * Without a user password the first group password becomes the password
   * and the remaining ones, if there are any, become the extra passwords.
   */
  lemma GroupPasswordsSplit(q: QuizAccess, user: nat, groups: set<nat>, table: seq<Override>)
    requires UserFields(table, q.id, user).password.None?
    ensures var ps := Passwords(GroupRows(table, q.id, groups));
            var r := EffectiveAccess(q, user, groups, table);
            (|ps| == 0 ==> r.password == q.password && r.extraPasswords == q.extraPasswords) &&
            (|ps| > 0 ==> [r.password] + (if |ps| > 1 then r.extraPasswords.value else []) == ps) &&
            (r.extraPasswords != q.extraPasswords ==> |ps| >= 2)
  {
    var ps := Passwords(GroupRows(table, q.id, groups));
    var r := EffectiveAccess(q, user, groups, table);
    assert r.password == if |ps| > 0 then ps[0] else q.password;
    assert r.extraPasswords == if |ps| > 1 then Some(ps[1..]) else q.extraPasswords;
    SplitPasswords(ps, r.password, r.extraPasswords, q.password, q.extraPasswords);
  }

  /** The first password and the rest, put back together, are the list. */
  lemma SplitPasswords(ps: seq<string>, password: string, extra: Option<seq<string>>, own: string, ownExtra: Option<seq<string>>)
    requires password == if |ps| > 0 then ps[0] else own
    requires extra == if |ps| > 1 then Some(ps[1..]) else ownExtra
    ensures |ps| == 0 ==> password == own && extra == ownExtra
    ensures |ps| > 0 ==> [password] + (if |ps| > 1 then extra.value else []) == ps
    ensures extra != ownExtra ==> |ps| >= 2
  {
    if |ps| > 0 {
      assert [ps[0]] + (if |ps| > 1 then ps[1..] else []) == ps;
    }
  }

  /** A user with no override row and no group override gets the quiz's own settings back. */
  lemma NoOverridesIsIdentity(q: QuizAccess, user: nat, groups: set<nat>, table: seq<Override>)
    requires forall o :: o in table && o.quiz == q.id ==> o.userId != Some(user)
    requires forall o :: o in table ==> !AppliesToGroups(o, q.id, groups)
    ensures EffectiveAccess(q, user, groups, table) == q
  {
    assert UserRow(table, q.id, user).None?;
  }

  /** A user override of 0 is applied: 0 means "unlimited", not "unset". */
  lemma ZeroOverrideApplied(q: QuizAccess, user: nat, groups: set<nat>, table: seq<Override>, k: IntField)
    requires Get(UserFields(table, q.id, user), k) == Some(0)
    ensures Setting(EffectiveAccess(q, user, groups, table), k) == 0
  {
  }

  // ---------------------------------------------------------------------
  // The SQL restatement used when re-timing open attempts (locallib.php).

  /** SQL `MAX` over a column: NULLs are ignored, NULL when nothing is left. */
  function SqlMax(vs: seq<Option<int>>): (r: Option<int>)
    ensures r.None? <==> forall i :: 0 <= i < |vs| ==> vs[i].None?
    ensures r.Some? ==> Some(r.value) in vs && forall i :: 0 <= i < |vs| && vs[i].Some? ==> vs[i].value <= r.value
  {
    if |vs| == 0 then None
    else
      var rest := SqlMax(vs[1..]);
      assert forall i :: 1 <= i < |vs| ==> vs[i] == vs[1..][i - 1];
      match vs[0]
      case None => rest
      case Some(v) =>
        if rest.None? || v >= rest.value then Some(v) else rest
  }

  /** SQL `COALESCE(a, b, c, default)`: the first non-NULL argument. */
  function Coalesce(a: Option<int>, b: Option<int>, c: Option<int>, default: int): int {
    if a.Some? then a.value else if b.Some? then b.value else if c.Some? then c.value else default
  }

  function Column(rows: seq<Override>, k: IntField): (c: seq<Option<int>>)
    ensures |c| == |rows|
    ensures forall i :: 0 <= i < |rows| ==> c[i] == Get(rows[i].fields, k)
  {
    seq(|rows|, i requires 0 <= i < |rows| => Get(rows[i].fields, k))
  }

  function UserRows(table: seq<Override>, quiz: nat, user: nat): (rows: seq<Override>)
    ensures forall o :: o in rows <==> o in table && o.quiz == quiz && o.userId == Some(user)
  {
    if |table| == 0 then []
    else if table[0].quiz == quiz && table[0].userId == Some(user) then [table[0]] + UserRows(table[1..], quiz, user)
    else UserRows(table[1..], quiz, user)
  }

  /**
   * The column a `LEFT JOIN ... AND value = 0` (`want0`) or `... AND value > 0`
   * produces over the group rows: the value where it matches, NULL elsewhere.
   */
  function Masked(rows: seq<Override>, k: IntField, want0: bool): (c: seq<Option<int>>)
    ensures |c| == |rows|
    ensures forall i :: 0 <= i < |rows| ==> c[i] == Mask(Get(rows[i].fields, k), want0)
  {
    seq(|rows|, i requires 0 <= i < |rows| => Mask(Get(rows[i].fields, k), want0))
  }

  function Mask(v: Option<int>, want0: bool): Option<int> {
    if v.Some? && (if want0 then v.value == 0 else v.value > 0) then v else None
  }

  /**
   * `COALESCE(MAX(user value), MAX(group value = 0), MAX(group value > 0), quiz value)`:
   * the per-attempt closing time or time limit as the re-timing query computes it.
   */
  function UserTimeSql(q: QuizAccess, user: nat, groups: set<nat>, table: seq<Override>, k: IntField): (r: int)
    requires k == TimeClose || k == TimeLimit
    // A user row with a value decides: the result is one of the user rows' values.
    ensures (exists o :: o in table && o.quiz == q.id && o.userId == Some(user) && Get(o.fields, k).Some?) ==>
              exists o :: o in table && o.quiz == q.id && o.userId == Some(user) && Get(o.fields, k) == Some(r)
    // Otherwise a group value of 0 makes it unlimited.
    ensures (forall o :: o in table && o.quiz == q.id && o.userId == Some(user) ==> Get(o.fields, k).None?) ==>
              0 in GroupValues(q, groups, table, k) ==> r == 0
    // The result is always an override's value or the quiz's own.
    ensures r == Setting(q, k) || exists o :: o in table && o.quiz == q.id && Get(o.fields, k) == Some(r)
  {
    var users := UserRows(table, q.id, user);
    var rows := GroupRows(table, q.id, groups);
    ColumnMaxFromRow(users, k);
    MaskedMaxFromRow(rows, k, true);
    MaskedMaxFromRow(rows, k, false);
    ZeroColumnMax(rows, k);
    Coalesce(SqlMax(Column(users, k)),
             SqlMax(Masked(rows, k, true)),
             SqlMax(Masked(rows, k, false)),
             Setting(q, k))
  }

  /** The MAX of a column is some row's value, and there is one as soon as a row has a value. */
  lemma ColumnMaxFromRow(rows: seq<Override>, k: IntField)
    ensures var m := SqlMax(Column(rows, k));
            (m.Some? ==> exists o :: o in rows && Get(o.fields, k) == m) &&
            ((exists o :: o in rows && Get(o.fields, k).Some?) ==> m.Some?)
  {
    var c := Column(rows, k);
    var m := SqlMax(c);
    if m.Some? {
      var i :| 0 <= i < |c| && c[i] == m;
      assert rows[i] in rows;
    }
    if exists o :: o in rows && Get(o.fields, k).Some? {
      var o :| o in rows && Get(o.fields, k).Some?;
      var i :| 0 <= i < |rows| && rows[i] == o;
      assert c[i].Some?;
    }
  }

  /** The MAX of a masked column is some row's value. */
  lemma MaskedMaxFromRow(rows: seq<Override>, k: IntField, want0: bool)
    ensures var m := SqlMax(Masked(rows, k, want0));
            m.Some? ==> exists o :: o in rows && Get(o.fields, k) == m
  {
    var c := Masked(rows, k, want0);
    var m := SqlMax(c);
    if m.Some? {
      var i :| 0 <= i < |c| && c[i] == m;
      assert rows[i] in rows;
    }
  }

  /** At most one override row per (quiz, user): what the override editor maintains. */
  ghost predicate OneUserRow(table: seq<Override>, quiz: nat, user: nat) {
    forall i, j :: 0 <= i < j < |table| && table[i].quiz == quiz && table[i].userId == Some(user) ==>
      !(table[j].quiz == quiz && table[j].userId == Some(user))
  }

  lemma {:induction false} UserRowsSingle(table: seq<Override>, quiz: nat, user: nat)
    requires OneUserRow(table, quiz, user)
    ensures UserRows(table, quiz, user) == (match UserRow(table, quiz, user) case None => [] case Some(o) => [o])
  {
    if |table| > 0 {
      var tl := table[1..];
      assert OneUserRow(tl, quiz, user) by {
        forall i, j | 0 <= i < j < |tl| && tl[i].quiz == quiz && tl[i].userId == Some(user)
          ensures !(tl[j].quiz == quiz && tl[j].userId == Some(user))
        {
          assert tl[i] == table[i + 1] && tl[j] == table[j + 1];
        }
      }
      UserRowsSingle(tl, quiz, user);
      if table[0].quiz == quiz && table[0].userId == Some(user) {
        assert forall j :: 0 <= j < |tl| ==> tl[j] == table[j + 1];
        assert UserRow(tl, quiz, user).None?;
      }
    }
  }

  /** The `= 0` column has a non-NULL maximum exactly when some group says 0, and it is 0. */
  lemma ZeroColumnMax(rows: seq<Override>, k: IntField)
    ensures SqlMax(Masked(rows, k, true)) == (if 0 in Defined(rows, k) then Some(0) else None)
  {
    var vs := Defined(rows, k);
    var mz := Masked(rows, k, true);
    var r := SqlMax(mz);
    if 0 in vs {
      var i :| 0 <= i < |rows| && Get(rows[i].fields, k) == Some(0);
      assert mz[i] == Some(0);
      var j :| 0 <= j < |mz| && mz[j] == Some(r.value);
    } else {
      forall i | 0 <= i < |rows| ensures mz[i].None? {
        assert Get(rows[i].fields, k).Some? ==> Get(rows[i].fields, k).value in vs;
      }
    }
  }

  /** With no 0 among non-negative group values, the `> 0` column's maximum is the largest value. */
  lemma PositiveColumnMax(rows: seq<Override>, k: IntField)
    requires forall i :: 0 <= i < |rows| && Get(rows[i].fields, k).Some? ==> Get(rows[i].fields, k).value >= 0
    requires |Defined(rows, k)| > 0 && 0 !in Defined(rows, k)
    ensures SqlMax(Masked(rows, k, false)) == Some(MaxOf(Defined(rows, k)))
  {
    var vs := Defined(rows, k);
    var mp := Masked(rows, k, false);
    var m := MaxOf(vs);
    assert m in vs;
    var i :| 0 <= i < |rows| && Get(rows[i].fields, k) == Some(m);
    assert m > 0 by {
      assert m >= 0;
      assert m != 0;
    }
    assert mp[i] == Some(m);
    var r := SqlMax(mp);
    assert r.Some?;
    assert Some(r.value) in mp;
    var j :| 0 <= j < |mp| && mp[j] == Some(r.value);
    assert Get(rows[j].fields, k) == Some(r.value);
    assert r.value in vs;
    assert r.value <= m;
    assert r.value >= m;
  }

  /** With no group value for `k`, both MAX columns are NULL. */
  lemma NoGroupValueNoColumn(rows: seq<Override>, k: IntField)
    requires |Defined(rows, k)| == 0
    ensures SqlMax(Masked(rows, k, true)).None? && SqlMax(Masked(rows, k, false)).None?
  {
    assert forall i :: 0 <= i < |rows| ==> Get(rows[i].fields, k).None?;
  }

  /**
   * The SQL closing time and time limit agree with the PHP resolution, given
   * at most one user row and no negative group values (the SQL drops those).
   */
  lemma UserTimeSqlAgrees(q: QuizAccess, user: nat, groups: set<nat>, table: seq<Override>, k: IntField)
    requires k == TimeClose || k == TimeLimit
    requires OneUserRow(table, q.id, user)
    requires forall o :: o in table && AppliesToGroups(o, q.id, groups) && Get(o.fields, k).Some? ==>
               Get(o.fields, k).value >= 0
    ensures UserTimeSql(q, user, groups, table, k) == Setting(EffectiveAccess(q, user, groups, table), k)
  {
    UserRowsSingle(table, q.id, user);
    var rows := GroupRows(table, q.id, groups);
    var uf := UserFields(table, q.id, user);
    var userMax := SqlMax(Column(UserRows(table, q.id, user), k));
    assert userMax == Get(uf, k) by {
      var ur := UserRows(table, q.id, user);
      if ur != [] {
        assert Column(ur, k) == [Get(uf, k)];
      }
    }
    var vs := Defined(rows, k);
    if Get(uf, k).None? {
      if |vs| > 0 {
        ZeroColumnMax(rows, k);
        if 0 !in vs {
          forall i | 0 <= i < |rows| && Get(rows[i].fields, k).Some? ensures Get(rows[i].fields, k).value >= 0 {
            assert rows[i] in rows;
          }
          PositiveColumnMax(rows, k);
        }
      } else {
        NoGroupValueNoColumn(rows, k);
      }
    }
  }

  // ---------------------------------------------------------------------
  // Next state-check time of an open attempt (locallib.php, re-timing query).

  /**
   * When an open attempt must next be looked at: the earlier of the end of
   * its time limit and the closing time (0 meaning "none"), plus the grace
   * period once it is overdue; never, when it has neither.
   */
  function NextCheckTime(timeStart: int, limit: int, close: int, overdue: bool, grace: int): (r: Option<int>)
    ensures r.None? <==> limit == 0 && close == 0
    ensures r.Some? ==>
      var base := r.value - (if overdue then grace else 0);
      (limit != 0 ==> base <= timeStart + limit) &&
      (close != 0 ==> base <= close) &&
      ((limit != 0 && base == timeStart + limit) || (close != 0 && base == close))
  {
    var base :=
      if limit == 0 && close == 0 then None
      else if limit == 0 then Some(close)
      else if close == 0 then Some(timeStart + limit)
      else if timeStart + limit < close then Some(timeStart + limit)
      else Some(close);
    match base
    case None => None
    case Some(t) => Some(t + (if overdue then grace else 0))
  }

  // ---------------------------------------------------------------------
  // Course reset: dates of override rows move with the course (lib.php).

  /** A date moves by `shift` unless it is NULL or 0 ("no date"). */
  function ShiftDate(t: Option<int>, shift: int): (r: Option<int>)
    ensures t.None? || t == Some(0) ==> r == t
    ensures t.Some? && t.value != 0 ==> r == Some(t.value + shift)
  {
    if t.Some? && t.value != 0 then Some(t.value + shift) else t
  }

  function ShiftRow(o: Override, shift: int): Override {
    o.(fields := o.fields.(timeOpen := ShiftDate(o.fields.timeOpen, shift),
                           timeClose := ShiftDate(o.fields.timeClose, shift)))
  }

  /** The override rows after a course reset with date shift `shift`, for the quizzes of that course. */
  function ResetShift(table: seq<Override>, courseQuizzes: set<nat>, shift: int): (r: seq<Override>)
    ensures |r| == |table|
    ensures forall i :: 0 <= i < |table| && table[i].quiz !in courseQuizzes ==> r[i] == table[i]
    ensures forall i :: 0 <= i < |table| && table[i].quiz in courseQuizzes ==>
              r[i].id == table[i].id && r[i].quiz == table[i].quiz &&
              r[i].userId == table[i].userId && r[i].groupId == table[i].groupId &&
              r[i].fields.timeLimit == table[i].fields.timeLimit &&
              r[i].fields.attempts == table[i].fields.attempts &&
              r[i].fields.password == table[i].fields.password &&
              r[i].fields.timeOpen == ShiftDate(table[i].fields.timeOpen, shift) &&
              r[i].fields.timeClose == ShiftDate(table[i].fields.timeClose, shift)
    ensures shift == 0 ==> r == table
  {
    if shift == 0 then table
    else seq(|table|, i requires 0 <= i < |table| =>
               if table[i].quiz in courseQuizzes then ShiftRow(table[i], shift) else table[i])
  }

  /** No date of the course's rows would land exactly on 0 ("no date") under `shift`. */
  ghost predicate ShiftKeepsDates(table: seq<Override>, courseQuizzes: set<nat>, shift: int) {
    forall i :: 0 <= i < |table| && table[i].quiz in courseQuizzes ==>
      table[i].fields.timeOpen != Some(-shift) && table[i].fields.timeClose != Some(-shift)
  }

  /** Shifting back undoes a reset shift, unless a date was shifted onto 0 and so lost. */
  lemma ResetShiftRoundTrip(table: seq<Override>, courseQuizzes: set<nat>, shift: int)
    requires ShiftKeepsDates(table, courseQuizzes, shift)
    ensures ResetShift(ResetShift(table, courseQuizzes, shift), courseQuizzes, -shift) == table
  {
    var once := ResetShift(table, courseQuizzes, shift);
    var back := ResetShift(once, courseQuizzes, -shift);
    assert |back| == |table|;
    forall i | 0 <= i < |table| ensures back[i] == table[i] {
      if table[i].quiz in courseQuizzes {
        assert ShiftDate(ShiftDate(table[i].fields.timeOpen, shift), -shift) == table[i].fields.timeOpen;
        assert ShiftDate(ShiftDate(table[i].fields.timeClose, shift), -shift) == table[i].fields.timeClose;
      }
    }
  }

  /** The shift is lossy: a date that lands on 0 is not moved back. */
  lemma ResetShiftLosesZeroedDate()
    ensures var t := [Override(1, 7, Some(3), None, Unset.(timeOpen := Some(100)))];
            ResetShift(ResetShift(t, {7}, -100), {7}, 100) != t
  {
    var t := [Override(1, 7, Some(3), None, Unset.(timeOpen := Some(100)))];
    var back := ResetShift(ResetShift(t, {7}, -100), {7}, 100);
    assert back[0].fields.timeOpen == Some(0);
  }
}
