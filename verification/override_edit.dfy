/**
 * Editing overrides (overrideedit.php): pre-filling the form from the quiz,
 * storing values equal to the quiz setting as "unset", and saving a new or
 * changed override so that each (quiz, user) and (quiz, group) keeps at most
 * one row, the new values merged on top of the row they replace.
 */
module OverrideEdit {
  import opened Wrappers
  import opened Overrides

  /** The quiz's own values, as the form shows them for a fresh override. */
  function Defaults(q: QuizAccess): Fields {
    Fields(Some(q.timeOpen), Some(q.timeClose), Some(q.timeLimit), Some(q.attempts), Some(q.password))
  }

  predicate AllSet(f: Fields) {
    f.timeOpen.Some? && f.timeClose.Some? && f.timeLimit.Some? && f.attempts.Some? && f.password.Some?
  }

  /** Form pre-fill: a key that is missing, or every key on "reset", takes the quiz's value. */
  function FillDefaults(data: Fields, q: QuizAccess, reset: bool): (r: Fields)
    ensures AllSet(r)
    ensures forall k :: Get(r, k) == (if Get(data, k).None? || reset then Some(Setting(q, k)) else Get(data, k))
    ensures r.password == (if data.password.None? || reset then Some(q.password) else data.password)
  {
    Fields(
      if data.timeOpen.None? || reset then Some(q.timeOpen) else data.timeOpen,
      if data.timeClose.None? || reset then Some(q.timeClose) else data.timeClose,
      if data.timeLimit.None? || reset then Some(q.timeLimit) else data.timeLimit,
      if data.attempts.None? || reset then Some(q.attempts) else data.attempts,
      if data.password.None? || reset then Some(q.password) else data.password)
  }

  function Unchanged<T(==)>(v: Option<T>, default: T): Option<T> {
    if v == Some(default) then None else v
  }

  /** A submitted value equal to the quiz's own setting is stored as NULL ("unset"). */
  function NormaliseUnchanged(form: Fields, q: QuizAccess): (r: Fields)
    ensures forall k :: Get(r, k).None? <==> Get(form, k).None? || Get(form, k) == Some(Setting(q, k))
    ensures forall k :: Get(r, k).Some? ==> Get(r, k) == Get(form, k)
    ensures r.password.None? <==> form.password.None? || form.password == Some(q.password)
    ensures r.password.Some? ==> r.password == form.password
  {
    Fields(
      Unchanged(form.timeOpen, q.timeOpen),
      Unchanged(form.timeClose, q.timeClose),
      Unchanged(form.timeLimit, q.timeLimit),
      Unchanged(form.attempts, q.attempts),
      Unchanged(form.password, q.password))
  }

  /**
   * Where no group override applies to the user, storing unchanged values as
   * NULL does not change what the user gets: compare any table whose user
   * row holds the normalised values with any table whose user row holds the
   * submitted ones.
   */
  lemma NormaliseKeepsEffectiveAccess(q: QuizAccess, user: nat, groups: set<nat>, form: Fields,
                                      normalised: seq<Override>, submitted: seq<Override>)
    requires UserFields(normalised, q.id, user) == NormaliseUnchanged(form, q)
    requires UserFields(submitted, q.id, user) == form
    requires GroupRows(normalised, q.id, groups) == [] && GroupRows(submitted, q.id, groups) == []
    ensures EffectiveAccess(q, user, groups, normalised) == EffectiveAccess(q, user, groups, submitted)
  {
    var n := NormaliseUnchanged(form, q);
    assert Passwords([]) == [];
    assert ResolveInt(n, [], TimeOpen, q.timeOpen) == ResolveInt(form, [], TimeOpen, q.timeOpen);
    assert ResolveInt(n, [], TimeClose, q.timeClose) == ResolveInt(form, [], TimeClose, q.timeClose);
    assert ResolveInt(n, [], TimeLimit, q.timeLimit) == ResolveInt(form, [], TimeLimit, q.timeLimit);
    assert ResolveInt(n, [], Attempts, q.attempts) == ResolveInt(form, [], Attempts, q.attempts);
  }

  /**
   * With a group override in play, a user value that happens to equal the
   * quiz setting is stored as NULL, so the group's value applies instead.
   */
  lemma NormaliseLetsGroupValueThrough()
    ensures var q := QuizAccess(7, 0, 0, 0, 3, "", None);
            var form := Fields(Some(0), Some(0), Some(0), Some(3), Some(""));
            var group := Override(2, 7, None, Some(9), Unset.(attempts := Some(5)));
            var stored := Override(1, 7, Some(4), None, NormaliseUnchanged(form, q));
            EffectiveAccess(q, 4, {9}, [stored, group]).attempts == 5
  {
    var q := QuizAccess(7, 0, 0, 0, 3, "", None);
    var form := Fields(Some(0), Some(0), Some(0), Some(3), Some(""));
    var group := Override(2, 7, None, Some(9), Unset.(attempts := Some(5)));
    var stored := Override(1, 7, Some(4), None, NormaliseUnchanged(form, q));
    var t := [stored, group];
    assert UserFields(t, 7, 4).attempts == None;
    assert GroupRows(t, 7, {9}) == [group];
    assert Defined([group], Attempts) == [5];
  }

  /** Whom an override is for: exactly one user or one group. */
  datatype Target = ForUser(user: nat) | ForGroup(group: nat)

  function UserOf(t: Target): Option<nat> {
    if t.ForUser? then Some(t.user) else None
  }

  function GroupOf(t: Target): Option<nat> {
    if t.ForGroup? then Some(t.group) else None
  }

  predicate HasTarget(o: Override, quiz: nat, t: Target) {
    o.quiz == quiz && o.userId == UserOf(t) && o.groupId == GroupOf(t)
  }

  /** A submitted override form: the row being edited (id 0 for a new or duplicated one) and the new values. */
  datatype Submission = Submission(quiz: nat, target: Target, fields: Fields)

  /**
   * Whether the submission is for someone other than the row being edited. A
   * new or duplicated override (id 0) always counts as changed; for a row
   * with one target it is changed exactly when the row does not have the
   * submitted target.
   */
  function TargetChanged(editing: Override, sub: Submission): (r: bool)
    ensures editing.id == 0 ==> r
    ensures editing.id != 0 && (editing.userId.Some? != editing.groupId.Some?) ==>
              (r <==> !HasTarget(editing, editing.quiz, sub.target))
  {
    if editing.id == 0 then true
    else if sub.target.ForUser? then UserOf(sub.target) != editing.userId
    else GroupOf(sub.target) != editing.groupId
  }

  /** The existing row for (quiz, target), if any. */
  function FindTarget(table: seq<Override>, quiz: nat, t: Target): (r: Option<Override>)
    ensures r.Some? ==> r.value in table && HasTarget(r.value, quiz, t)
    ensures r.None? ==> forall o :: o in table ==> !HasTarget(o, quiz, t)
  {
    if |table| == 0 then None
    else if HasTarget(table[0], quiz, t) then Some(table[0])
    else FindTarget(table[1..], quiz, t)
  }

  function Prefer<T>(newer: Option<T>, older: Option<T>): Option<T> {
    if newer.Some? then newer else older
  }

  /** The new override merged on top of the old: the new override's NULL fields take the old values. */
  function MergeOver(newer: Fields, older: Fields): (r: Fields)
    ensures forall k :: Get(r, k) == (if Get(newer, k).Some? then Get(newer, k) else Get(older, k))
    ensures r.password == (if newer.password.Some? then newer.password else older.password)
  {
    Fields(
      Prefer(newer.timeOpen, older.timeOpen),
      Prefer(newer.timeClose, older.timeClose),
      Prefer(newer.timeLimit, older.timeLimit),
      Prefer(newer.attempts, older.attempts),
      Prefer(newer.password, older.password))
  }

  /** The table without the row whose id is `id`. */
  function Remove(table: seq<Override>, id: nat): (r: seq<Override>)
    ensures forall o :: o in r <==> o in table && o.id != id
    ensures |r| <= |table|
  {
    if |table| == 0 then []
    else if table[0].id == id then Remove(table[1..], id)
    else [table[0]] + Remove(table[1..], id)
  }

  /** `UPDATE ... WHERE id = row.id`: the row with that id is replaced, if there is one. */
  function Replace(table: seq<Override>, row: Override): (r: seq<Override>)
    ensures |r| == |table|
    ensures forall i :: 0 <= i < |table| ==> r[i] == (if table[i].id == row.id then row else table[i])
  {
    seq(|table|, i requires 0 <= i < |table| => if table[i].id == row.id then row else table[i])
  }

  /** The row a changed or new override replaces: the existing row for its target. */
  function Prior(table: seq<Override>, editing: Override, sub: Submission): Option<Override> {
    if TargetChanged(editing, sub) then FindTarget(table, sub.quiz, sub.target) else None
  }

  /** The table once the replaced row, if any, is deleted. */
  function Remaining(table: seq<Override>, editing: Override, sub: Submission): seq<Override> {
    match Prior(table, editing, sub)
    case Some(p) => Remove(table, p.id)
    case None => table
  }

  /**
   * The row written: for the submission's target, under the edited row's id
   * or `newId`; a submitted value wins, and a NULL one takes the value of
   * the row it replaces, if any.
   */
  function SavedRow(table: seq<Override>, editing: Override, sub: Submission, newId: nat): (r: Override)
    ensures HasTarget(r, sub.quiz, sub.target)
    ensures r.id == (if editing.id != 0 then editing.id else newId)
    ensures var prior := Prior(table, editing, sub);
            forall k :: Get(r.fields, k) ==
              if Get(sub.fields, k).Some? then Get(sub.fields, k)
              else if prior.Some? then Get(prior.value.fields, k) else None
    ensures var prior := Prior(table, editing, sub);
            r.fields.password ==
              if sub.fields.password.Some? then sub.fields.password
              else if prior.Some? then prior.value.fields.password else None
  {
    var fields := match Prior(table, editing, sub)
      case Some(p) => MergeOver(sub.fields, p.fields)
      case None => sub.fields;
    Override(if editing.id != 0 then editing.id else newId, sub.quiz, UserOf(sub.target), GroupOf(sub.target), fields)
  }

  /**
   * Saving a submitted override. When the target changed (or the override is
   * new), an existing row for the new target is merged under the submission
   * and deleted; the edited row is then updated in place, or a new row with
   * id `newId` is inserted.
   */
  function Save(table: seq<Override>, editing: Override, sub: Submission, newId: nat): (r: seq<Override>)
    // Every other row survives unchanged: all but the edited row and the replaced one.
    ensures var prior := Prior(table, editing, sub);
            forall o :: o in table && o.id != editing.id && (prior.None? || o.id != prior.value.id) ==> o in r
    // Nothing else appears: each row is the saved row or a row of the table that was not replaced.
    ensures var prior := Prior(table, editing, sub);
            forall o :: o in r ==> o == SavedRow(table, editing, sub, newId) || (o in table && (prior.None? || o.id != prior.value.id))
    ensures editing.id == 0 ==> SavedRow(table, editing, sub, newId) in r
  {
    var rest := Remaining(table, editing, sub);
    var row := SavedRow(table, editing, sub, newId);
    if editing.id != 0 then
      var r := Replace(rest, row);
      assert forall o :: o in rest && o.id != row.id ==> o in r by {
        forall o | o in rest && o.id != row.id ensures o in r {
          var i :| 0 <= i < |rest| && rest[i] == o;
          assert r[i] == o;
        }
      }
      r
    else rest + [row]
  }

  /** "Duplicate": the edited override loses its id and its user or group before the form is built. */
  function Duplicate(o: Override): (r: Override)
    ensures r.id == 0 && r.userId.None? && r.groupId.None?
    ensures r.quiz == o.quiz && r.fields == o.fields
  {
    o.(id := 0, userId := None, groupId := None)
  }

  /** Override rows are well formed: positive distinct ids, one target each, at most one row per target. */
  ghost predicate WellFormed(table: seq<Override>) {
    && (forall i :: 0 <= i < |table| ==> table[i].id != 0)
    && (forall i :: 0 <= i < |table| ==> (table[i].userId.Some? != table[i].groupId.Some?))
    && (forall i, j :: 0 <= i < j < |table| ==> table[i].id != table[j].id)
    && (forall i, j :: 0 <= i < j < |table| ==>
          !(table[i].quiz == table[j].quiz && table[i].userId == table[j].userId && table[i].groupId == table[j].groupId))
  }

  lemma RemoveWellFormed(table: seq<Override>, id: nat)
    requires WellFormed(table)
    ensures WellFormed(Remove(table, id))
  {
    if |table| > 0 {
      RemoveWellFormed(table[1..], id);
      var r := Remove(table, id);
      if table[0].id != id {
        var rest := Remove(table[1..], id);
        assert r == [table[0]] + rest;
        forall j | 0 < j < |r| ensures r[0].id != r[j].id && !(r[0].quiz == r[j].quiz && r[0].userId == r[j].userId && r[0].groupId == r[j].groupId)
        {
          assert r[j] in rest;
          var k :| 1 <= k < |table| && table[k] == r[j];
        }
      }
    }
  }

  /** Replacing the edited row by a row for a target no other row has keeps the table well formed. */
  lemma ReplaceWellFormed(table: seq<Override>, row: Override)
    requires WellFormed(table)
    requires row.id != 0 && (row.userId.Some? != row.groupId.Some?)
    requires forall i :: 0 <= i < |table| && table[i].id != row.id ==>
               !(table[i].quiz == row.quiz && table[i].userId == row.userId && table[i].groupId == row.groupId)
    ensures WellFormed(Replace(table, row))
  {
  }

  /** Appending a row with a fresh id and a fresh target keeps the table well formed. */
  lemma AppendWellFormed(table: seq<Override>, row: Override)
    requires WellFormed(table)
    requires row.id != 0 && (row.userId.Some? != row.groupId.Some?)
    requires forall i :: 0 <= i < |table| ==>
               (table[i].id != row.id &&
                !(table[i].quiz == row.quiz && table[i].userId == row.userId && table[i].groupId == row.groupId))
    ensures WellFormed(table + [row])
  {
    var r := table + [row];
    assert forall i :: 0 <= i < |table| ==> r[i] == table[i];
    assert r[|table|] == row;
  }

  /** Two rows of a well-formed table with the same target are the same row. */
  lemma SameTargetSameRow(table: seq<Override>, a: Override, b: Override, quiz: nat, t: Target)
    requires WellFormed(table) && a in table && b in table
    requires HasTarget(a, quiz, t) && HasTarget(b, quiz, t)
    ensures a == b
  {
    var i :| 0 <= i < |table| && table[i] == a;
    var j :| 0 <= j < |table| && table[j] == b;
    assert !(i < j) && !(j < i);
  }

  /** After the replaced row is deleted, only the edited row can still have the submission's target. */
  lemma RemainingLacksTarget(table: seq<Override>, editing: Override, sub: Submission)
    requires WellFormed(table)
    requires editing.id != 0 ==> editing in table && editing.quiz == sub.quiz
    ensures forall o :: o in Remaining(table, editing, sub) && o.id != editing.id ==> !HasTarget(o, sub.quiz, sub.target)
  {
    var rest := Remaining(table, editing, sub);
    forall o | o in rest && o.id != editing.id ensures !HasTarget(o, sub.quiz, sub.target) {
      var prior := Prior(table, editing, sub);
      if HasTarget(o, sub.quiz, sub.target) {
        if TargetChanged(editing, sub) {
          if prior.Some? {
            SameTargetSameRow(table, o, prior.value, sub.quiz, sub.target);
          }
        } else {
          assert HasTarget(editing, sub.quiz, sub.target);
          SameTargetSameRow(table, o, editing, sub.quiz, sub.target);
        }
      }
    }
  }

  /** Saving keeps at most one row per (quiz, user) and per (quiz, group). */
  lemma SaveWellFormed(table: seq<Override>, editing: Override, sub: Submission, newId: nat)
    requires WellFormed(table)
    requires editing.id != 0 ==> editing in table && editing.quiz == sub.quiz
    requires newId != 0 && forall o :: o in table ==> o.id != newId
    ensures WellFormed(Save(table, editing, sub, newId))
  {
    var prior := Prior(table, editing, sub);
    var rest := Remaining(table, editing, sub);
    if prior.Some? {
      RemoveWellFormed(table, prior.value.id);
    }
    RemainingLacksTarget(table, editing, sub);
    var row := SavedRow(table, editing, sub, newId);
    if editing.id != 0 {
      ReplaceWellFormed(rest, row);
    } else {
      forall i | 0 <= i < |rest| ensures rest[i].id != row.id && !HasTarget(rest[i], sub.quiz, sub.target) {
        assert rest[i] in rest;
      }
      AppendWellFormed(rest, row);
    }
  }

  /** The saved row carries the submission's target and values merged over any row it replaced, which is gone. */
  lemma SaveStoresMergedRow(table: seq<Override>, editing: Override, sub: Submission, newId: nat)
    requires WellFormed(table)
    requires editing.id != 0 ==> editing in table && editing.quiz == sub.quiz
    requires forall o :: o in table ==> o.id != newId
    ensures var prior := Prior(table, editing, sub);
            var fields := if prior.Some? then MergeOver(sub.fields, prior.value.fields) else sub.fields;
            var saved := Save(table, editing, sub, newId);
            (exists o :: o in saved && HasTarget(o, sub.quiz, sub.target) && o.fields == fields) &&
            (prior.Some? && prior.value.id != editing.id ==> prior.value !in saved)
  {
    var prior := Prior(table, editing, sub);
    var rest := Remaining(table, editing, sub);
    var row := SavedRow(table, editing, sub, newId);
    var saved := Save(table, editing, sub, newId);
    if editing.id != 0 {
      if prior.Some? {
        assert editing != prior.value;
        var i :| 0 <= i < |table| && table[i] == editing;
        var j :| 0 <= j < |table| && table[j] == prior.value;
        assert i != j;
      }
      assert editing in rest;
      var i :| 0 <= i < |rest| && rest[i] == editing;
      assert saved[i] == row;
    } else {
      assert saved[|rest|] == row;
    }
    if prior.Some? && prior.value.id != editing.id {
      assert prior.value !in rest;
      if editing.id != 0 {
        assert row.id != prior.value.id;
        assert saved == Replace(rest, row);
        forall i | 0 <= i < |saved| ensures saved[i] != prior.value {
          assert rest[i] in rest;
          assert saved[i] == row || saved[i] == rest[i];
        }
      } else {
        forall i | 0 <= i < |saved| ensures saved[i] != prior.value {
          if i < |rest| { assert saved[i] == rest[i]; assert rest[i] in rest; } else { assert saved[i] == row; }
        }
      }
    }
  }

  /** Saving a duplicated override inserts a new row and leaves the original untouched. */
  lemma DuplicateKeepsOriginal(table: seq<Override>, original: Override, target: Target, newId: nat)
    requires WellFormed(table) && original in table
    requires !HasTarget(original, original.quiz, target)
    ensures var sub := Submission(original.quiz, target, original.fields);
            var saved := Save(table, Duplicate(original), sub, newId);
            original in saved && |saved| >= |table|
  {
    var sub := Submission(original.quiz, target, original.fields);
    var prior := FindTarget(table, sub.quiz, target);
    if prior.Some? {
      assert prior.value.id != original.id by {
        var i :| 0 <= i < |table| && table[i] == prior.value;
        var j :| 0 <= j < |table| && table[j] == original;
        assert i != j;
      }
      assert original in Remove(table, prior.value.id);
      RemoveSizeOfPresent(table, prior.value.id, prior.value);
    }
  }

  lemma RemoveSizeOfPresent(table: seq<Override>, id: nat, o: Override)
    requires WellFormed(table) && o in table && o.id == id
    ensures |Remove(table, id)| == |table| - 1
  {
    if table[0] == o {
      assert forall p :: p in table[1..] ==> p.id != id by {
        forall p | p in table[1..] ensures p.id != id {
          var j :| 0 <= j < |table[1..]| && table[1..][j] == p;
          assert table[j + 1] == p;
        }
      }
      RemoveAbsent(table[1..], id);
    } else {
      assert WellFormed(table[1..]);
      assert o in table[1..];
      assert table[0].id != id by {
        var j :| 0 <= j < |table| && table[j] == o;
      }
      RemoveSizeOfPresent(table[1..], id, o);
    }
  }

  lemma RemoveAbsent(table: seq<Override>, id: nat)
    requires forall p :: p in table ==> p.id != id
    ensures Remove(table, id) == table
  {
    if |table| > 0 {
      assert forall p :: p in table[1..] ==> p in table;
      RemoveAbsent(table[1..], id);
    }
  }
}
