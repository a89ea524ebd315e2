/**
 * Overall-feedback boundaries (extendedquiz_process_options, lib.php): the
 * teacher lists grade boundaries from the top down, each a number or a
 * percentage of the quiz grade; they are checked, converted and closed by a
 * sentinel above the maximum grade and one at zero.
 */
module Feedback {
  import opened Wrappers

  /**
   * A boundary field of the form after trimming, classified the way the code
   * reads it: PHP-empty (missing, "" or "0"), a number, a number followed by
   * '%', text ending in '%' whose rest is not a number, or blank (only spaces).
   */
  datatype Field = Empty | Number(v: real) | Percent(p: real) | BadPercent | Blank

  /** The 1-based position of the offending field in each error message. */
  datatype FeedbackError =
    | BoundaryFormat(index: nat)
    | BoundaryOutOfRange(index: nat)
    | BoundaryOrder(index: nat)
    | JunkInBoundary(index: nat)
    | JunkInFeedback(index: nat)

  /**
   * The accepted boundaries at indices 0 .. count-1, with `grade + 1` at
   * index -1 and 0 at index `count`.
   */
  datatype Boundaries = Boundaries(values: seq<real>, grade: real) {
    function Count(): nat {
      |values|
    }

    function At(i: int): real
      requires -1 <= i <= |values|
    {
      if i == -1 then grade + 1.0 else if i == |values| then 0.0 else values[i]
    }
  }

  /** The value a field stands for, or None for a field that is not a boundary value. */
  function Value(f: Field, grade: real): (r: Option<real>)
    ensures r.Some? <==> f.Number? || f.Percent?
  {
    match f
    case Number(v) => Some(v)
    case Percent(p) => Some(p * grade / 100.0)
    case _ => None
  }

  /** The number of fields the loop reads: those before the first empty one. */
  function Used(fields: seq<Field>): (n: nat)
    ensures n <= |fields|
    ensures forall i :: 0 <= i < n ==> !fields[i].Empty?
    ensures n < |fields| ==> fields[n].Empty?
  {
    if |fields| == 0 || fields[0].Empty? then 0
    else
      var rest := Used(fields[1..]);
      assert forall i :: 1 <= i <= rest ==> fields[i] == fields[1..][i - 1];
      1 + rest
  }

  /** Boundaries the code accepts: each strictly between 0 and the grade, each below the one before. */
  ghost predicate Accepted(vs: seq<real>, grade: real) {
    (forall i :: 0 <= i < |vs| ==> 0.0 < vs[i] < grade) &&
    (forall i :: 0 < i < |vs| ==> vs[i] < vs[i - 1])
  }

  /** Whether field `i` passes given that the fields before it passed. */
  ghost predicate FieldOk(fields: seq<Field>, grade: real, i: nat)
    requires i < |fields|
  {
    var v := Value(fields[i], grade);
    v.Some? && 0.0 < v.value < grade &&
    (i > 0 ==> Value(fields[i - 1], grade).Some? && v.value < Value(fields[i - 1], grade).value)
  }

  /** The error the code reports for field `i` when it does not pass. */
  function FieldError(f: Field, v: Option<real>, prev: Option<real>, grade: real, i: nat): Option<FeedbackError> {
    if f.BadPercent? then Some(BoundaryFormat(i + 1))
    else if v.None? || v.value <= 0.0 || v.value >= grade then Some(BoundaryOutOfRange(i + 1))
    else if prev.Some? && v.value >= prev.value then Some(BoundaryOrder(i + 1))
    else None
  }

  /**
   * The checking loop: reads boundary fields up to the first empty one,
   * converts percentages, and stops at the first field that is badly formed,
   * out of range or not below the one before.
   */
  method ParseBoundaries(fields: seq<Field>, grade: real) returns (r: Result<seq<real>, FeedbackError>)
    ensures r.Ok? ==> |r.value| == Used(fields) && Accepted(r.value, grade)
    ensures r.Ok? ==> forall i :: 0 <= i < |r.value| ==> Value(fields[i], grade) == Some(r.value[i])
    ensures r.Ok? <==> forall i :: 0 <= i < Used(fields) ==> FieldOk(fields, grade, i)
    ensures r.Err? ==> 1 <= r.error.index <= Used(fields) && !FieldOk(fields, grade, r.error.index - 1)
    ensures r.Err? ==> forall i :: 0 <= i < r.error.index - 1 ==> FieldOk(fields, grade, i)
    ensures r.Err? ==> r.error.BoundaryFormat? || r.error.BoundaryOutOfRange? || r.error.BoundaryOrder?
    ensures r.Err? ==> (r.error.BoundaryFormat? <==> fields[r.error.index - 1].BadPercent?)
    ensures r.Err? && r.error.BoundaryOutOfRange? ==>
              var v := Value(fields[r.error.index - 1], grade);
              v.None? || v.value <= 0.0 || v.value >= grade
    ensures r.Err? && r.error.BoundaryOrder? ==>
              var v := Value(fields[r.error.index - 1], grade);
              r.error.index >= 2 && v.Some? && 0.0 < v.value < grade &&
              Value(fields[r.error.index - 2], grade).Some? && v.value >= Value(fields[r.error.index - 2], grade).value
  {
    var n := Used(fields);
    var vs: seq<real> := [];
    var i := 0;
    while i < n
      invariant 0 <= i <= n && |vs| == i
      invariant forall k :: 0 <= k < i ==> Value(fields[k], grade) == Some(vs[k])
      invariant forall k :: 0 <= k < i ==> FieldOk(fields, grade, k)
      invariant Accepted(vs, grade)
    {
      var v := Value(fields[i], grade);
      var prev := if i > 0 then Some(vs[i - 1]) else None;
      var e := FieldError(fields[i], v, prev, grade, i);
      if e.Some? {
        assert !FieldOk(fields, grade, i);
        return Err(e.value);
      }
      vs := vs + [v.value];
      i := i + 1;
    }
    return Ok(vs);
  }

  /** The first position in `from .. |s|-1` where `bad` holds, if any. */
  function FirstJunk(s: seq<bool>, from: nat): (r: Option<nat>)
    ensures r.Some? ==> from <= r.value < |s| && s[r.value] && forall k :: from <= k < r.value ==> !s[k]
    ensures r.None? ==> forall k :: from <= k < |s| ==> !s[k]
    decreases |s| - from
  {
    if from >= |s| then None
    else if s[from] then Some(from)
    else FirstJunk(s, from + 1)
  }

  /** Whether a boundary field after the used ones holds something: anything but empty or blank. */
  function HasJunk(fields: seq<Field>): (r: seq<bool>)
    ensures |r| == |fields|
    ensures forall i :: 0 <= i < |r| ==> (r[i] <==> !(fields[i].Empty? || fields[i].Blank?))
  {
    seq(|fields|, i requires 0 <= i < |fields| => !(fields[i].Empty? || fields[i].Blank?))
  }

  /**
   * The feedback part of extendedquiz_process_options. `texts[i]` says
   * whether feedback text `i` holds anything once trimmed (PHP-empty text
   * does not).
   */
  method ProcessFeedback(fields: seq<Field>, texts: seq<bool>, grade: real) returns (r: Result<Boundaries, FeedbackError>)
    ensures r.Ok? ==> r.value.grade == grade && r.value.Count() == Used(fields) && Accepted(r.value.values, grade)
    ensures r.Ok? ==> forall i :: 0 <= i < r.value.Count() ==> Value(fields[i], grade) == Some(r.value.At(i))
    ensures r.Ok? <==>
              (forall i :: 0 <= i < Used(fields) ==> FieldOk(fields, grade, i)) &&
              (forall i :: Used(fields) <= i < |fields| ==> fields[i].Empty? || fields[i].Blank?) &&
              (forall i :: Used(fields) < i < |texts| ==> !texts[i])
    ensures r.Err? && r.error.JunkInFeedback? ==> Used(fields) < r.error.index - 1 < |texts| && texts[r.error.index - 1]
    ensures r.Err? && r.error.JunkInBoundary? ==>
              (forall i :: 0 <= i < Used(fields) ==> FieldOk(fields, grade, i)) &&
              Used(fields) <= r.error.index - 1 < |fields| &&
              !(fields[r.error.index - 1].Empty? || fields[r.error.index - 1].Blank?) &&
              (forall i :: Used(fields) <= i < r.error.index - 1 ==> fields[i].Empty? || fields[i].Blank?)
    ensures r.Err? && r.error.JunkInFeedback? ==>
              (forall i :: 0 <= i < Used(fields) ==> FieldOk(fields, grade, i)) &&
              (forall i :: Used(fields) <= i < |fields| ==> fields[i].Empty? || fields[i].Blank?) &&
              (forall i :: Used(fields) < i < r.error.index - 1 ==> !texts[i])
    ensures r.Err? && !(r.error.JunkInBoundary? || r.error.JunkInFeedback?) ==>
              1 <= r.error.index <= Used(fields) && !FieldOk(fields, grade, r.error.index - 1) &&
              (forall i :: 0 <= i < r.error.index - 1 ==> FieldOk(fields, grade, i)) &&
              (r.error.BoundaryFormat? <==> fields[r.error.index - 1].BadPercent?)
  {
    var parsed := ParseBoundaries(fields, grade);
    if parsed.Err? {
      return Err(parsed.error);
    }
    var vs := parsed.value;
    var n := |vs|;
    var junk := HasJunk(fields);
    var jb := FirstJunk(junk, n);
    if jb.Some? {
      return Err(JunkInBoundary(jb.value + 1));
    }
    var jf := FirstJunk(texts, n + 1);
    if jf.Some? {
      return Err(JunkInFeedback(jf.value + 1));
    }
    return Ok(Boundaries(vs, grade));
  }

  /**
   * With the sentinels the boundaries fall strictly from index -1 to index
   * `count`, so every grade from 0 to the maximum lies in exactly one band
   * At(i) <= g < At(i - 1).
   */
  lemma SentinelsDecreasing(vs: seq<real>, grade: real, i: int, j: int)
    requires Accepted(vs, grade) && grade > 0.0
    requires -1 <= i < j <= |vs|
    ensures Boundaries(vs, grade).At(j) < Boundaries(vs, grade).At(i)
  {
    if 0 <= i && j < |vs| {
      AcceptedDecreasing(vs, grade, i, j);
    }
  }

  lemma {:induction false} AcceptedDecreasing(vs: seq<real>, grade: real, i: nat, j: nat)
    requires Accepted(vs, grade)
    requires i < j < |vs|
    ensures vs[j] < vs[i]
    decreases j - i
  {
    if i + 1 < j {
      AcceptedDecreasing(vs, grade, i, j - 1);
    }
  }

  /** Every grade in [0, grade] falls in the band of exactly one feedback. */
  lemma BandFor(vs: seq<real>, grade: real, g: real)
    requires Accepted(vs, grade)
    requires 0.0 <= g <= grade
    ensures var b := Boundaries(vs, grade);
            exists k :: 0 <= k <= |vs| && b.At(k) <= g < b.At(k - 1)
  {
    var b := Boundaries(vs, grade);
    var k := |vs|;
    assert b.At(k) == 0.0 <= g;
    while k > 0 && b.At(k - 1) <= g
      invariant 0 <= k <= |vs|
      invariant b.At(k) <= g
      decreases k
    {
      k := k - 1;
    }
    assert b.At(k) <= g < b.At(k - 1);
  }

  lemma BandUnique(vs: seq<real>, grade: real, g: real, k: int, m: int)
    requires Accepted(vs, grade) && grade > 0.0
    requires 0 <= k <= |vs| && 0 <= m <= |vs|
    requires Boundaries(vs, grade).At(k) <= g < Boundaries(vs, grade).At(k - 1)
    requires Boundaries(vs, grade).At(m) <= g < Boundaries(vs, grade).At(m - 1)
    ensures k == m
  {
    if k < m {
      SentinelsDecreasing(vs, grade, k, m - 1);
    } else if m < k {
      SentinelsDecreasing(vs, grade, m, k - 1);
    }
  }
}
