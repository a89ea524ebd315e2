/**
 * Quiz layouts (locallib.php): the comma-separated list of question ids in
 * which 0 ends a page, here already split into a sequence of numbers.
 */
module Layout {
  import opened Wrappers

  /** Question ids in order; 0 is a page break that closes the page before it. */
  type Layout = seq<nat>

  /** How often `v` occurs. */
  function Count(s: seq<nat>, v: nat): (n: nat)
    ensures n <= |s|
    ensures n == 0 <==> v !in s
  {
    if |s| == 0 then 0 else (if s[0] == v then 1 else 0) + Count(s[1..], v)
  }

  lemma {:induction false} CountAppend(a: seq<nat>, b: seq<nat>, v: nat)
    ensures Count(a + b, v) == Count(a, v) + Count(b, v)
  {
    if |a| == 0 {
      assert a + b == b;
    } else {
      assert (a + b)[1..] == a[1..] + b;
      CountAppend(a[1..], b, v);
    }
  }

  /** The question ids without the page breaks, in order. */
  function NonZeros(s: seq<nat>): (r: seq<nat>)
    ensures forall x :: x in r <==> x in s && x != 0
    ensures |r| <= |s|
  {
    if |s| == 0 then []
    else
      assert forall x :: x in s <==> x == s[0] || x in s[1..];
      if s[0] == 0 then NonZeros(s[1..]) else [s[0]] + NonZeros(s[1..])
  }

  lemma {:induction false} NonZerosAppend(a: seq<nat>, b: seq<nat>)
    ensures NonZeros(a + b) == NonZeros(a) + NonZeros(b)
  {
    if |a| == 0 {
      assert a + b == b;
    } else {
      assert (a + b)[1..] == a[1..] + b;
      NonZerosAppend(a[1..], b);
    }
  }

  /** No value occurs twice. */
  ghost predicate Unique(s: seq<nat>) {
    forall i, j :: 0 <= i < j < |s| ==> s[i] != s[j]
  }

  /** No question id occurs twice (page breaks may). */
  ghost predicate DistinctIds(s: seq<nat>) {
    Unique(NonZeros(s))
  }

  // ---------------------------------------------------------------------
  // Cleaning (extendedquiz_clean_layout).

  /** Drops every repeat of a question id already in `seen` or earlier in `s`; keeps every page break. */
  function Dedup(s: seq<nat>, seen: set<nat>): (r: seq<nat>)
    ensures DistinctIds(r)
    ensures forall x :: x in r && x != 0 ==> x in s && x !in seen
    ensures forall x :: x in s && x != 0 && x !in seen ==> x in r
    ensures Count(r, 0) == Count(s, 0)
  {
    if |s| == 0 then []
    else
      assert forall x :: x in s <==> x == s[0] || x in s[1..];
      if s[0] == 0 then
        var rest := Dedup(s[1..], seen);
        assert NonZeros([0] + rest) == NonZeros(rest) by { NonZerosAppend([0], rest); }
        [0] + rest
      else if s[0] in seen then Dedup(s[1..], seen)
      else
        var rest := Dedup(s[1..], seen + {s[0]});
        assert NonZeros([s[0]] + rest) == [s[0]] + NonZeros(rest) by { NonZerosAppend([s[0]], rest); }
        [s[0]] + rest
  }

  /** Page breaks at the start, and every break right after another, are dropped when `strip` says so. */
  function StripBreaks(s: seq<nat>, strip: bool): (r: seq<nat>)
    ensures NonZeros(r) == NonZeros(s)
    ensures strip && |r| > 0 ==> r[0] != 0
    ensures forall i :: 0 <= i < |r| - 1 ==> r[i] != 0 || r[i + 1] != 0
    ensures Count(r, 0) <= Count(s, 0)
  {
    if |s| == 0 then []
    else if strip && s[0] == 0 then StripBreaks(s[1..], true)
    else
      var rest := StripBreaks(s[1..], s[0] == 0);
      NonZerosAppend([s[0]], rest);
      [s[0]] + rest
  }

  /** A page break is added unless the layout already ends in one. */
  function EnsureBreak(s: seq<nat>): (r: seq<nat>)
    ensures EndsInBreak(r)
    ensures NonZeros(r) == NonZeros(s)
    ensures Count(r, 0) == Count(s, 0) + (if |s| > 0 && s[|s| - 1] == 0 then 0 else 1)
  {
    if |s| > 0 && s[|s| - 1] == 0 then s
    else
      NonZerosAppend(s, [0]);
      CountAppend(s, [0], 0);
      s + [0]
  }

  /** The layout is closed by a page break. */
  predicate EndsInBreak(s: seq<nat>) {
    |s| > 0 && s[|s| - 1] == 0
  }

  /** No page is empty: the layout starts with a question and never has two breaks in a row. */
  ghost predicate NoEmptyPages(s: seq<nat>) {
    (|s| > 0 ==> s[0] != 0) && forall i :: 0 <= i < |s| - 1 ==> s[i] != 0 || s[i + 1] != 0
  }

  /**
   * Repeated question ids are dropped (the first stays), a page break is
   * added at the end if missing, and with `removeEmptyPages` empty pages go.
   */
  function CleanLayout(l: Layout, removeEmptyPages: bool): (r: Layout)
    ensures EndsInBreak(r)
    ensures DistinctIds(r)
    ensures forall x :: x != 0 ==> (x in r <==> x in l)
    ensures removeEmptyPages ==> r == [0] || NoEmptyPages(r)
    ensures !removeEmptyPages ==> Count(l, 0) <= Count(r, 0) <= Count(l, 0) + 1
  {
    var d := Dedup(l, {});
    var s := if removeEmptyPages then StripBreaks(d, true) else d;
    CleanSteps(l, d, s, removeEmptyPages);
    EnsureBreak(s)
  }

  /** The three steps of CleanLayout together give its contract. */
  lemma CleanSteps(l: Layout, d: seq<nat>, s: seq<nat>, removeEmptyPages: bool)
    requires d == Dedup(l, {})
    requires s == if removeEmptyPages then StripBreaks(d, true) else d
    ensures var r := EnsureBreak(s);
            DistinctIds(r) &&
            (forall x :: x != 0 ==> (x in r <==> x in l)) &&
            (removeEmptyPages ==> r == [0] || NoEmptyPages(r)) &&
            (!removeEmptyPages ==> Count(l, 0) <= Count(r, 0) <= Count(l, 0) + 1)
  {
    var r := EnsureBreak(s);
    assert NonZeros(r) == NonZeros(d) by {
      assert NonZeros(s) == NonZeros(d);
    }
    assert DistinctIds(r) by {
      assert DistinctIds(d);
    }
    SameIds(l, d, r);
    EnsureBreakNoEmptyPages(s, removeEmptyPages);
  }

  /** Two layouts with the same id list hold the same ids. */
  lemma SameIds(l: Layout, d: seq<nat>, r: seq<nat>)
    requires forall x :: x != 0 ==> (x in d <==> x in l)
    requires NonZeros(r) == NonZeros(d)
    ensures forall x :: x != 0 ==> (x in r <==> x in l)
  {
    assert forall x :: x != 0 ==> (x in r <==> x in NonZeros(r));
    assert forall x :: x != 0 ==> (x in d <==> x in NonZeros(d));
  }

  /** Closing a layout without empty pages by a break leaves no empty page, unless nothing else is there. */
  lemma EnsureBreakNoEmptyPages(s: seq<nat>, stripped: bool)
    requires stripped && |s| > 0 ==> s[0] != 0
    requires stripped ==> forall i :: 0 <= i < |s| - 1 ==> s[i] != 0 || s[i + 1] != 0
    ensures stripped ==> EnsureBreak(s) == [0] || NoEmptyPages(EnsureBreak(s))
  {
    if stripped && |s| > 0 && s[|s| - 1] != 0 {
      var r := s + [0];
      assert forall i :: 0 <= i < |s| ==> r[i] == s[i];
    }
  }

  /** Dedup leaves a layout without repeated ids (and none in `seen`) as it is. */
  lemma {:induction false} DedupKeepsDistinct(s: seq<nat>, seen: set<nat>)
    requires DistinctIds(s)
    requires forall x :: x in s && x != 0 ==> x !in seen
    ensures Dedup(s, seen) == s
  {
    if |s| > 0 {
      NonZerosAppend([s[0]], s[1..]);
      assert [s[0]] + s[1..] == s;
      var tail := NonZeros(s[1..]);
      if s[0] == 0 {
        assert NonZeros(s) == tail;
        DedupKeepsDistinct(s[1..], seen);
      } else {
        assert NonZeros(s) == [s[0]] + tail;
        var ns := NonZeros(s);
        assert Unique(tail) by {
          forall i, j | 0 <= i < j < |tail| ensures tail[i] != tail[j] {
            assert ns[i + 1] == tail[i] && ns[j + 1] == tail[j];
            assert ns[i + 1] != ns[j + 1];
          }
        }
        assert s[0] !in tail by {
          forall k | 0 <= k < |tail| ensures tail[k] != s[0] {
            assert ns[k + 1] == tail[k];
            assert ns[0] != ns[k + 1];
          }
        }
        DedupKeepsDistinct(s[1..], seen + {s[0]});
      }
    }
  }

  lemma {:induction false} StripKeepsClean(s: seq<nat>)
    requires NoEmptyPages(s)
    ensures StripBreaks(s, true) == s
  {
    if |s| > 0 {
      StripKeepsCleanAfter(s[1..], s[0] == 0);
    }
  }

  lemma {:induction false} StripKeepsCleanAfter(s: seq<nat>, strip: bool)
    requires strip && |s| > 0 ==> s[0] != 0
    requires forall i :: 0 <= i < |s| - 1 ==> s[i] != 0 || s[i + 1] != 0
    ensures StripBreaks(s, strip) == s
  {
    if |s| > 0 {
      StripKeepsCleanAfter(s[1..], s[0] == 0);
    }
  }

  /** Cleaning a clean layout changes nothing. */
  lemma CleanLayoutIdempotent(l: Layout, removeEmptyPages: bool)
    ensures CleanLayout(CleanLayout(l, removeEmptyPages), removeEmptyPages) == CleanLayout(l, removeEmptyPages)
  {
    var c := CleanLayout(l, removeEmptyPages);
    DedupKeepsDistinct(c, {});
    assert Dedup(c, {}) == c;
    if !removeEmptyPages {
      assert EnsureBreak(c) == c;
    } else if c == [0] {
      assert StripBreaks([0], true) == [];
    } else {
      StripKeepsClean(c);
      assert EnsureBreak(c) == c;
    }
  }

  /**
   * First-occurrence order: extending the layout by one item extends the
   * cleaned ids by that item exactly when it is a question not seen before.
   */
  lemma {:induction false} DedupAppend(s: seq<nat>, seen: set<nat>, x: nat)
    ensures Dedup(s + [x], seen) ==
            Dedup(s, seen) + (if x == 0 then [0] else if x in seen || x in s then [] else [x])
  {
    if |s| == 0 {
      assert s + [x] == [x] + [];
      DedupCons(x, [], seen);
    } else {
      var h, t := s[0], s[1..];
      var seen' := if h == 0 || h in seen then seen else seen + {h};
      DedupAppend(t, seen', x);
      DedupAppendStep(h, t, seen, x);
      assert s == [h] + t;
    }
  }

  /** DedupAppend for `[h] + t`, given it for `t`. */
  lemma DedupAppendStep(h: nat, t: seq<nat>, seen: set<nat>, x: nat)
    requires var seen' := if h == 0 || h in seen then seen else seen + {h};
             Dedup(t + [x], seen') ==
             Dedup(t, seen') + (if x == 0 then [0] else if x in seen' || x in t then [] else [x])
    ensures Dedup([h] + t + [x], seen) ==
            Dedup([h] + t, seen) + (if x == 0 then [0] else if x in seen || x in [h] + t then [] else [x])
  {
    var seen' := if h == 0 || h in seen then seen else seen + {h};
    var a := Dedup(t, seen');
    var extra := if x == 0 then [0] else if x in seen' || x in t then [] else [x];
    assert [h] + t + [x] == [h] + (t + [x]);
    if h == 0 {
      DedupConsKept(h, t, seen, seen);
      DedupConsKept(h, t + [x], seen, seen);
      ConcatAssoc([h], a, extra);
    } else if h in seen {
      DedupConsSeen(h, t, seen);
      DedupConsSeen(h, t + [x], seen);
    } else {
      DedupConsKept(h, t, seen, seen');
      DedupConsKept(h, t + [x], seen, seen');
      ConcatAssoc([h], a, extra);
    }
    if x != 0 {
      ExtraStep(h, t, seen, x);
    }
  }

  /** Dedup keeps a break, or a new id which it then remembers. */
  lemma DedupConsKept(h: nat, t: seq<nat>, seen: set<nat>, seen': set<nat>)
    requires h == 0 || h !in seen
    requires seen' == if h == 0 then seen else seen + {h}
    ensures Dedup([h] + t, seen) == [h] + Dedup(t, seen')
  {
    assert ([h] + t)[1..] == t;
  }

  /** Dedup drops an id it has seen. */
  lemma DedupConsSeen(h: nat, t: seq<nat>, seen: set<nat>)
    requires h != 0 && h in seen
    ensures Dedup([h] + t, seen) == Dedup(t, seen)
  {
    assert ([h] + t)[1..] == t;
  }

  lemma ConcatAssoc<T>(a: seq<T>, b: seq<T>, c: seq<T>)
    ensures a + (b + c) == (a + b) + c
  {
  }

  lemma ExtraStep(h: nat, t: seq<nat>, seen: set<nat>, x: nat)
    requires x != 0
    ensures var seen' := if h == 0 || h in seen then seen else seen + {h};
            (x in seen' || x in t) <==> (x in seen || x in [h] + t)
  {
    assert x in [h] + t <==> x == h || x in t;
  }

  /** One step of Dedup: a break is kept, a seen id dropped, a new id kept and remembered. */
  lemma DedupCons(h: nat, t: seq<nat>, seen: set<nat>)
    ensures Dedup([h] + t, seen) ==
            if h == 0 then [0] + Dedup(t, seen)
            else if h in seen then Dedup(t, seen)
            else [h] + Dedup(t, seen + {h})
  {
    assert ([h] + t)[1..] == t;
  }

  // ---------------------------------------------------------------------
  // Questions, pages and slots.

  /** The question ids of the layout, each once, in first-occurrence order (extendedquiz_questions_in_quiz). */
  function QuestionsInQuiz(l: Layout): (r: seq<nat>)
    ensures 0 !in r
    ensures Unique(r)
    ensures forall x :: x in r <==> x != 0 && x in l
  {
    NonZeros(CleanLayout(l, true))
  }

  /** The question list is the non-break part of the deduplicated layout. */
  lemma QuestionsAreDedup(l: Layout)
    ensures QuestionsInQuiz(l) == NonZeros(Dedup(l, {}))
  {
  }

  /** A new question at the end becomes the last question; a repeated one, or a break, adds nothing. */
  lemma QuestionsFirstOccurrence(l: Layout, x: nat)
    ensures QuestionsInQuiz(l + [x]) == QuestionsInQuiz(l) + (if x == 0 || x in l then [] else [x])
  {
    QuestionsAreDedup(l);
    QuestionsAreDedup(l + [x]);
    DedupAppend(l, {}, x);
    var d := Dedup(l, {});
    var extra := if x == 0 then [0] else if x in l then [] else [x];
    NonZerosAppend(d, extra);
    assert NonZeros(extra) == (if x == 0 || x in l then [] else [x]);
  }

  /** The number of pages: the page breaks in the layout as stored (extendedquiz_number_of_pages). */
  function NumberOfPages(l: Layout): (n: nat)
    ensures n == 0 <==> 0 !in l
  {
    Count(l, 0)
  }

  /** The number of distinct questions (extendedquiz_number_of_questions_in_quiz). */
  function NumberOfQuestions(l: Layout): (n: nat)
    ensures n == |set x | x in l && x != 0|
  {
    var qs := QuestionsInQuiz(CleanLayout(l, false));
    assert forall x :: x in qs <==> x in l && x != 0;
    DistinctCount(qs, l);
    |qs|
  }

  /** The values of `s` as a set. */
  function Elems(s: seq<nat>): (r: set<nat>)
    ensures forall x :: x in r <==> x in s
  {
    if |s| == 0 then {}
    else
      assert forall y :: y in s <==> y == s[0] || y in s[1..];
      {s[0]} + Elems(s[1..])
  }

  lemma {:induction false} UniqueCardinality(s: seq<nat>)
    requires Unique(s)
    ensures |Elems(s)| == |s|
  {
    if |s| > 0 {
      var rest := s[1..];
      assert Unique(rest) by {
        forall i, j | 0 <= i < j < |rest| ensures rest[i] != rest[j] {
          assert s[i + 1] == rest[i] && s[j + 1] == rest[j];
        }
      }
      UniqueCardinality(rest);
      assert s[0] !in rest by {
        forall k | 0 <= k < |rest| ensures rest[k] != s[0] {
          assert s[k + 1] == rest[k];
        }
      }
      assert s[0] !in Elems(rest);
    }
  }

  lemma DistinctCount(qs: seq<nat>, l: Layout)
    requires Unique(qs)
    requires forall x :: x in qs <==> x in l && x != 0
    ensures |qs| == |set x | x in l && x != 0|
  {
    UniqueCardinality(qs);
    assert Elems(qs) == (set x | x in l && x != 0);
  }

  /** The 1-based position of a question among the quiz's questions (extendedquiz_get_slot_for_question). */
  function SlotIn(qs: seq<nat>, id: nat, from: nat): (r: Option<nat>)
    requires from <= |qs|
    ensures r.Some? ==> from < r.value <= |qs| && qs[r.value - 1] == id
    ensures r.Some? ==> forall k :: from <= k < r.value - 1 ==> qs[k] != id
    ensures r.None? <==> forall k :: from <= k < |qs| ==> qs[k] != id
    decreases |qs| - from
  {
    if from == |qs| then None
    else if qs[from] == id then Some(from + 1)
    else SlotIn(qs, id, from + 1)
  }

  function GetSlotForQuestion(l: Layout, id: nat): (r: Option<nat>)
    ensures r.None? <==> id !in QuestionsInQuiz(l)
    ensures r.Some? ==> 1 <= r.value <= |QuestionsInQuiz(l)| && QuestionsInQuiz(l)[r.value - 1] == id
  {
    SlotIn(QuestionsInQuiz(l), id, 0)
  }

  // ---------------------------------------------------------------------
  // Repagination (extendedquiz_repaginate, without shuffling).

  /**
   * Lays out questions `qs` given `onPage` questions already on the current
   * page: a break goes before a question once the page holds `perPage`
   * (a zero `perPage` never breaks; a negative one breaks before every question).
   */
  function Paginate(qs: seq<nat>, perPage: int, onPage: nat): (r: seq<nat>)
    ensures NonZeros(r) == NonZeros(qs)
  {
    if |qs| == 0 then []
    else
      var rest := Paginate(qs[1..], perPage, if perPage != 0 && onPage >= perPage then 1 else onPage + 1);
      NonZerosAppend([qs[0]], qs[1..]);
      assert [qs[0]] + qs[1..] == qs;
      NonZerosAppend([qs[0]], rest);
      if perPage != 0 && onPage >= perPage then
        NonZerosAppend([0], [qs[0]] + rest);
        [0] + ([qs[0]] + rest)
      else [qs[0]] + rest
  }

  /** The paginated questions closed by a final break; no questions leave one empty page. */
  function PaginateAll(qs: seq<nat>, perPage: int): (r: Layout)
    requires 0 !in qs
    ensures EndsInBreak(r)
    ensures NonZeros(r) == qs
  {
    if |qs| == 0 then [0]
    else
      var body := Paginate(qs, perPage, 0);
      NonZerosAppend(body, [0]);
      NonZerosOfIds(qs);
      body + [0]
  }

  function Repaginate(l: Layout, perPage: int): (r: Layout)
    ensures EndsInBreak(r)
    ensures NonZeros(r) == QuestionsInQuiz(l)
    ensures |QuestionsInQuiz(l)| == 0 ==> r == [0]
  {
    PaginateAll(QuestionsInQuiz(l), perPage)
  }

  lemma {:induction false} NonZerosOfIds(s: seq<nat>)
    requires 0 !in s
    ensures NonZeros(s) == s
  {
    if |s| > 0 {
      assert s[0] != 0;
      assert 0 !in s[1..] by { assert forall x :: x in s[1..] ==> x in s; }
      NonZerosOfIds(s[1..]);
    }
  }

  /** Repaginating keeps the questions, so every question keeps its slot. */
  lemma RepaginateKeepsSlots(l: Layout, perPage: int, id: nat)
    ensures QuestionsInQuiz(Repaginate(l, perPage)) == QuestionsInQuiz(l)
    ensures GetSlotForQuestion(Repaginate(l, perPage), id) == GetSlotForQuestion(l, id)
  {
    var r := Repaginate(l, perPage);
    var qs := QuestionsInQuiz(l);
    assert DistinctIds(r);
    DedupKeepsDistinct(r, {});
    QuestionsAreDedup(r);
  }

  /** Every page before the break that closes it holds at most `p` questions, `k` being already on the current page. */
  ghost predicate RunsAtMost(s: seq<nat>, p: nat, k: nat) {
    if |s| == 0 then true
    else if s[0] == 0 then RunsAtMost(s[1..], p, 0)
    else k + 1 <= p && RunsAtMost(s[1..], p, k + 1)
  }

  lemma {:induction false} PaginateRunsAtMost(qs: seq<nat>, p: nat, k: nat)
    requires 0 < p && k <= p && 0 !in qs
    ensures RunsAtMost(Paginate(qs, p, k), p, k)
  {
    if |qs| > 0 {
      assert 0 !in qs[1..] by { assert forall x :: x in qs[1..] ==> x in qs; }
      assert qs[0] in qs;
      if k >= p {
        PaginateRunsAtMost(qs[1..], p, 1);
        var rest := Paginate(qs[1..], p, 1);
        assert ([0] + ([qs[0]] + rest))[1..] == [qs[0]] + rest;
        assert ([qs[0]] + rest)[1..] == rest;
      } else {
        PaginateRunsAtMost(qs[1..], p, k + 1);
        var rest := Paginate(qs[1..], p, k + 1);
        assert ([qs[0]] + rest)[1..] == rest;
      }
    }
  }

  lemma {:induction false} RunsAtMostBreak(s: seq<nat>, p: nat, k: nat)
    requires RunsAtMost(s, p, k)
    ensures RunsAtMost(s + [0], p, k)
  {
    if |s| == 0 {
      assert (s + [0])[1..] == [];
    } else {
      assert (s + [0])[1..] == s[1..] + [0];
      if s[0] == 0 {
        RunsAtMostBreak(s[1..], p, 0);
      } else {
        RunsAtMostBreak(s[1..], p, k + 1);
      }
    }
  }

  /** After k items already placed, n more end on page b + 1 where b is the number of breaks placed. */
  lemma {:induction false} PaginateBreaks(qs: seq<nat>, p: nat, k: nat)
    requires 0 < p && k <= p && k + |qs| >= 1 && 0 !in qs
    ensures PagesFor(Count(Paginate(qs, p, k), 0) + 1, p, |qs| + k)
  {
    if |qs| > 0 {
      var t := qs[1..];
      assert qs[0] != 0 by { assert qs[0] in qs; }
      assert 0 !in t by { assert forall x :: x in t ==> x in qs; }
      var k' := if k >= p then 1 else k + 1;
      PaginateBreaks(t, p, k');
      CountPaginateCons(qs, p, k);
      if k >= p {
        PagesForStep(Count(Paginate(t, p, k'), 0) + 1, p, |t| + 1);
      }
    }
  }

  /** The first question adds a break before it exactly when the page is full. */
  lemma CountPaginateCons(qs: seq<nat>, p: nat, k: nat)
    requires 0 < p && |qs| > 0 && qs[0] != 0
    ensures Count(Paginate(qs, p, k), 0) ==
            (if k >= p then 1 else 0) + Count(Paginate(qs[1..], p, if k >= p then 1 else k + 1), 0)
  {
    var rest := Paginate(qs[1..], p, if k >= p then 1 else k + 1);
    CountCons(qs[0], rest, 0);
    if k >= p {
      assert Paginate(qs, p, k) == [0] + ([qs[0]] + rest);
      CountCons(0, [qs[0]] + rest, 0);
    } else {
      assert Paginate(qs, p, k) == [qs[0]] + rest;
    }
  }

  lemma CountCons(v: nat, t: seq<nat>, w: nat)
    ensures Count([v] + t, w) == (if v == w then 1 else 0) + Count(t, w)
  {
    assert ([v] + t)[1..] == t;
  }

  /** What `pages` pages of `p` questions hold: pages * p, by repeated addition. */
  function Capacity(pages: nat, p: nat): nat {
    if pages == 0 then 0 else Capacity(pages - 1, p) + p
  }

  lemma {:induction false} CapacityIsProduct(pages: nat, p: nat)
    ensures Capacity(pages, p) == pages * p
  {
    if pages > 0 {
      CapacityIsProduct(pages - 1, p);
      assert pages * p == (pages - 1) * p + p;
    }
  }

  /** `pages` pages of `p` are the fewest that hold `n` items: (pages - 1) * p < n <= pages * p. */
  predicate PagesFor(pages: nat, p: nat, n: int) {
    pages > 0 && Capacity(pages - 1, p) < n <= Capacity(pages, p)
  }

  lemma PagesForStep(pages: nat, p: nat, n: int)
    requires PagesFor(pages, p, n)
    ensures PagesFor(pages + 1, p, n + p)
  {
  }

  /** With a positive `perPage` no page holds more than `perPage` questions. */
  lemma PaginateAllPageSize(qs: seq<nat>, perPage: nat)
    requires perPage > 0 && 0 !in qs
    ensures RunsAtMost(PaginateAll(qs, perPage), perPage, 0)
  {
    if |qs| > 0 {
      PaginateRunsAtMost(qs, perPage, 0);
      RunsAtMostBreak(Paginate(qs, perPage, 0), perPage, 0);
    }
  }

  /** n > 0 questions make ceil(n / perPage) pages, that is, one page fewer would not hold them all. */
  lemma PaginateAllPages(qs: seq<nat>, perPage: nat)
    requires perPage > 0 && 0 !in qs
    ensures |qs| == 0 ==> NumberOfPages(PaginateAll(qs, perPage)) == 1
    ensures |qs| > 0 ==> PagesFor(NumberOfPages(PaginateAll(qs, perPage)), perPage, |qs|)
  {
    if |qs| > 0 {
      var body := Paginate(qs, perPage, 0);
      PaginateBreaks(qs, perPage, 0);
      CountAppend(body, [0], 0);
      assert Count([0], 0) == 1;
      PagesForSame(Count(body, 0) + 1, NumberOfPages(body + [0]), perPage, |qs|);
    } else {
      assert Count([0], 0) == 1;
    }
  }

  /** Repaginating with a positive `perPage` fills no page beyond `perPage` questions. */
  lemma RepaginatePageSize(l: Layout, perPage: nat)
    requires perPage > 0
    ensures RunsAtMost(Repaginate(l, perPage), perPage, 0)
  {
    PaginateAllPageSize(QuestionsInQuiz(l), perPage);
  }

  /**
   * Repaginating with a positive `perPage` makes exactly as many pages as
   * needed: ceil(n / perPage) for n questions, one empty page for none.
   */
  lemma RepaginatePages(l: Layout, perPage: nat)
    requires perPage > 0
    ensures |QuestionsInQuiz(l)| == 0 ==> NumberOfPages(Repaginate(l, perPage)) == 1
    ensures |QuestionsInQuiz(l)| > 0 ==> PagesFor(NumberOfPages(Repaginate(l, perPage)), perPage, |QuestionsInQuiz(l)|)
  {
    PaginateAllPages(QuestionsInQuiz(l), perPage);
  }

  lemma PagesForSame(a: nat, b: nat, p: nat, n: int)
    requires a == b && PagesFor(a, p, n)
    ensures PagesFor(b, p, n)
  {
  }

  lemma {:induction false} PaginateUnlimited(qs: seq<nat>, k: nat)
    ensures Paginate(qs, 0, k) == qs
  {
    if |qs| > 0 {
      PaginateUnlimited(qs[1..], k + 1);
    }
  }

  lemma {:induction false} PaginateNegative(qs: seq<nat>, p: int, k: nat)
    requires p < 0
    ensures Count(Paginate(qs, p, k), 0) == |qs| + Count(qs, 0)
  {
    if |qs| > 0 {
      PaginateNegative(qs[1..], p, 1);
      var rest := Paginate(qs[1..], p, 1);
      assert Count([0] + ([qs[0]] + rest), 0) == 1 + Count([qs[0]] + rest, 0);
      assert Count([qs[0]] + rest, 0) == (if qs[0] == 0 then 1 else 0) + Count(rest, 0);
    }
  }

  /** A zero `perPage` puts every question on one page; a negative one puts each on its own page after an empty first page. */
  lemma RepaginateUnboundedOrNegative(l: Layout, perPage: int)
    requires |QuestionsInQuiz(l)| > 0
    ensures perPage == 0 ==> Repaginate(l, perPage) == QuestionsInQuiz(l) + [0]
    ensures perPage < 0 ==> Repaginate(l, perPage)[0] == 0 &&
                             NumberOfPages(Repaginate(l, perPage)) == |QuestionsInQuiz(l)| + 1
  {
    PaginateAllUnboundedOrNegative(QuestionsInQuiz(l), perPage);
  }

  lemma PaginateAllUnboundedOrNegative(qs: seq<nat>, perPage: int)
    requires |qs| > 0 && 0 !in qs
    ensures perPage == 0 ==> PaginateAll(qs, perPage) == qs + [0]
    ensures perPage < 0 ==> PaginateAll(qs, perPage)[0] == 0 &&
                             NumberOfPages(PaginateAll(qs, perPage)) == |qs| + 1
  {
    if perPage == 0 {
      PaginateUnlimited(qs, 0);
    } else if perPage < 0 {
      PaginateNegative(qs, perPage, 0);
      var body := Paginate(qs, perPage, 0);
      CountAppend(body, [0], 0);
      assert Count(qs, 0) == 0;
      assert Count([0], 0) == 1;
    }
  }
}
