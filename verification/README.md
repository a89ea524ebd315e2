# Extended quiz: a verified model of its business rules

This project models, in Dafny, the rules at the heart of the Moodle
"extendedquiz" activity module. They are lifted out of the database and UI
calls that surround them in the PHP code:

- **Overrides** (`overrides.dfy`, `override_edit.dfy`). A user override and the
  overrides of the user's groups are combined with the quiz's own opening
  time, closing time, time limit, attempt count and password. The same rule
  is restated in the SQL that re-times open attempts. The model also covers
  the next state-check time of an open attempt and the course-reset date
  shift. From the override editor it covers:
  - pre-filling the form;
  - storing values equal to the quiz setting as "unset";
  - merging a new override over the one it replaces.
- **Grades** (`grades.dfy`, `regrade.dfy`). This part covers:
  - which attempts count;
  - the four grading methods (highest, average, first, last);
  - the best attempt;
  - rescaling a raw mark to the quiz's maximum grade;
  - saving one user's grade and deleting an attempt;
  - the bulk recompute of every grade, as insert/update/delete actions on a grade map;
  - changing the maximum grade;
  - recomputing the total of marks.
- **Layouts** (`layout.dfy`). A layout is the list of question ids in which 0
  ends a page. The model covers cleaning it, listing its questions,
  counting pages and questions, finding a question's slot, and repaginating.
- **Review options and access** (`review.dfy`, `feedback.dfy`,
  `numattempts.dfy`, `events.dfy`). This part covers:
  - the review bit masks, the display options derived from them, and the moment an attempt is in;
  - review options combined over several attempts;
  - the grade-item hidden policy;
  - validation of the overall-feedback boundaries;
  - the number-of-attempts access rule;
  - how the quiz and its overrides become calendar events.

Every database table becomes a plain value: a `seq` of override or attempt
records, or a `map` from user id to stored grade. Every host call becomes a
parameter. That includes the user's groups, the existing groups, the module's
visibility and the current time `now`. NULL is `None`, and 0 keeps its
meaning of "unlimited" or "no date". Grades are exact `real`s. The tolerances
0.000005 and 0.0000001 are kept as constants.

The doc comment of `extendedquiz_update_all_final_grades`
(locallib.php:627-631) calls it equivalent to saving each user's best grade
in turn. The model follows the code, and the two paths are not equivalent:

- The per-user path reads FINISHED and ABANDONED attempts (lib.php:516-520).
- The bulk query reads FINISHED attempts only (locallib.php:652, 707).

`Regrade.BulkMatchesPerUser` therefore assumes the user has no abandoned
attempt. `Regrade.AbandonedAttemptSplitsPaths` gives a table on which the two
paths differ.

## Model

| member | source | states |
|---|---|---|
| Overrides.UserRow | lib.php:247-257 | The user's override row is a row of this quiz for this user; when there is none, no such row exists and every setting is unset. |
| Overrides.GroupRows | lib.php:260-268 | The group rows are exactly the rows of this quiz whose group is one of the user's groups. |
| Overrides.Defined | lib.php:277-293 | Each combined list holds exactly the non-NULL values the group rows carry for that setting. |
| Overrides.Passwords | lib.php:290-292 | The password list holds exactly the passwords the group rows set. |
| Overrides.Lenient | lib.php:298-318 | Combining closing times, limits or attempt counts gives 0 (unlimited) when any value is 0, and otherwise the largest value. |
| Overrides.EffectiveAccess | lib.php:244-337 | A non-NULL user value is the effective value of its setting, whatever the groups say. A user password replaces the quiz password and leaves the extra passwords alone. |
| Overrides.AppliedValueIsDefined | lib.php:277-293 | Every value of a group row that applies to the user enters the combination. |
| Overrides.DefinedValueIsApplied | lib.php:277-293 | Every combined value comes from a group row that applies to the user. |
| Overrides.GroupOpenIsEarliest | lib.php:295-297 | Without a user value, the opening time is the earliest group opening time. |
| Overrides.GroupUnlimitedDominates | lib.php:298-318 | Without a user value, a group 0 makes the closing time, limit or attempt count unlimited; otherwise the largest group value wins. |
| Overrides.NoValueKeepsSetting | lib.php:328-334 | A setting with neither a user nor a group value keeps the quiz's own value. |
| Overrides.GroupPasswordsSplit | lib.php:319-324 | Without a user password, the first group password in row order becomes the password and the others become the extra passwords. Extra passwords appear only with two or more group passwords. |
| Overrides.NoOverridesIsIdentity | lib.php:247-257 | A user with no override row and no applicable group row gets the quiz settings back unchanged. |
| Overrides.ZeroOverrideApplied | lib.php:329-334 | A user override of 0 is applied: 0 means unlimited, not unset. |
| Overrides.SqlMax | locallib.php:911-912 | SQL MAX ignores NULLs. It is NULL when nothing is left, and otherwise the largest present value. |
| Overrides.Masked | locallib.php:918-921 | The joins on `value = 0` and `value > 0` give a column holding the value where it matches and NULL elsewhere. |
| Overrides.ZeroColumnMax | locallib.php:918-920 | The `= 0` column has a maximum exactly when some group says 0, and that maximum is 0. |
| Overrides.PositiveColumnMax | locallib.php:919-921 | With no 0 among the group values, the `> 0` column's maximum is the largest group value. |
| Overrides.NoGroupValueNoColumn | locallib.php:918-921 | Without group values, both joined columns have a NULL maximum. |
| Overrides.UserRowsSingle | locallib.php:916 | With at most one row per user, the user join finds exactly the row the PHP lookup finds. |
| Overrides.UserTimeSqlAgrees | locallib.php:903-925 | The SQL closing time and time limit equal the PHP resolution, given one user row and no negative group values. |
| Overrides.UserTimeSql | locallib.php:903-925 | A user row with a value decides. Without one, a group value of 0 makes the result unlimited. The result is always an override's value or the quiz's own. |
| Overrides.NextCheckTime | locallib.php:840-846 | The next check time is NULL exactly when there is neither a limit nor a closing time. Otherwise it is the earlier of start plus limit and the closing time, with 0 counting as absent, plus the grace period when the attempt is overdue. |
| Overrides.ShiftDate | lib.php:1457-1465 | A course reset moves a date by the shift, unless the date is NULL or 0. |
| Overrides.ResetShift | lib.php:1457-1465 | A reset moves only the opening and closing times, and only of the course's quizzes. Every other row and field is unchanged. |
| Overrides.ResetShiftRoundTrip | lib.php:1457-1465 | Shifting back undoes a reset, provided no date was shifted onto 0. |
| Overrides.ResetShiftLosesZeroedDate | lib.php:1457-1465 | A date that lands exactly on 0 is not moved back by the reverse shift, so the round trip fails. |
| OverrideEdit.FillDefaults | overrideedit.php:91-96 | Every setting missing from the form data, or every setting on reset, is filled with the quiz's value. Other settings keep the data's value. |
| OverrideEdit.NormaliseUnchanged | overrideedit.php:129-134 | A submitted value is stored as NULL exactly when it equals the quiz's setting (or is missing). Otherwise it is kept. |
| OverrideEdit.NormaliseKeepsEffectiveAccess | overrideedit.php:129-134 | For a user whose groups have no overrides, a table whose user row holds the normalised form gives the same effective settings as one whose user row holds the form as submitted. |
| OverrideEdit.NormaliseLetsGroupValueThrough | overrideedit.php:129-134 | A user value equal to the quiz setting is stored as NULL, so a group value then applies to that user instead. |
| OverrideEdit.FindTarget | overrideedit.php:146-151 | The lookup returns a row with the submission's target, or reports that there is none. |
| OverrideEdit.TargetChanged | overrideedit.php:137-144 | A new override always counts as changed. When editing a user or group override, it counts as changed exactly when the submission names another target. |
| OverrideEdit.SavedRow | overrideedit.php:146-170 | The stored row has the submission's target and keeps the edited id, or takes the new id. Each setting is the submitted value, else the replaced override's value. |
| OverrideEdit.Save | overrideedit.php:136-170 | Every row other than the edited and the replaced one survives. Every row afterwards is the saved row or an unreplaced row of the table. A new override is added. |
| OverrideEdit.MergeOver | overrideedit.php:152-158 | The new override's NULL fields take the old override's values. |
| OverrideEdit.Remove | overrideedit.php:159-160 | Deleting the replaced row removes exactly the row with that id. |
| OverrideEdit.Replace | overrideedit.php:164-166 | An update replaces the row with the edited id and changes nothing else. |
| OverrideEdit.Duplicate | overrideedit.php:100-104 | Duplicating clears the id, user and group, and keeps the quiz and the values. |
| OverrideEdit.RemoveWellFormed | overrideedit.php:159-160 | Deleting a row keeps ids distinct and keeps at most one row per target. |
| OverrideEdit.ReplaceWellFormed | overrideedit.php:164-166 | Updating the edited row for a target no other row has keeps the table well formed. |
| OverrideEdit.AppendWellFormed | overrideedit.php:167-170 | Inserting a row with a fresh id and a fresh target keeps the table well formed. |
| OverrideEdit.SameTargetSameRow | overrideedit.php:136-162 | In a well-formed table, at most one row exists per (quiz, user) or (quiz, group). |
| OverrideEdit.RemainingLacksTarget | overrideedit.php:136-162 | Once the replaced row is deleted, only the edited row can still carry the submission's target. |
| OverrideEdit.SaveWellFormed | overrideedit.php:136-170 | Saving an override keeps at most one override per (quiz, user) and per (quiz, group). |
| OverrideEdit.SaveStoresMergedRow | overrideedit.php:136-170 | After saving, a row with the submission's target holds the new values merged over the replaced row, and the replaced row is gone. |
| OverrideEdit.DuplicateKeepsOriginal | overrideedit.php:100-104 | Saving a duplicate for another target inserts a new row and keeps the original. |
| Grades.MethodOfCode | locallib.php:589-625 | Codes 2, 3 and 4 select average, first and last. Any other code is graded as highest. |
| Grades.UserAttempts | lib.php:502-538 | The fetched attempts are exactly the user's attempts at the quiz in the requested state class, with previews only on request. Each comes as often as in the table, and they are in ascending attempt number. |
| Grades.Matching | lib.php:502-535 | The query's WHERE clause keeps exactly the user's attempts at the quiz in the requested state class, with previews only on request. |
| Grades.SortByNumber | lib.php:536-538 | `ORDER BY attempt ASC` rearranges the rows without losing or adding any, into ascending attempt number. |
| Grades.InsertByNumber | lib.php:536-538 | Inserting one row into a sorted list adds exactly that row and keeps the list sorted. |
| Grades.SortStrictlyAscending | lib.php:536-538 | With distinct attempt numbers, the sorted rows have strictly increasing numbers. |
| Grades.FetchedInAttemptOrder | lib.php:536-538 | Every selected attempt lies between the first and the last fetched attempt by number, whatever its place in the table. |
| Grades.FirstReadsLowestNumber | lib.php:536-538 | With attempt 2 stored before attempt 1, "first" still grades attempt 1. |
| Grades.BestGrade | locallib.php:589-625 | No attempts give NULL. "Highest" and "average" are NULL exactly when no attempt is graded. Every method but "average" picks the mark of one of the attempts. |
| Grades.AverageOrderFree | locallib.php:601-613 | The average does not depend on the order of the attempts. |
| Grades.Marks | locallib.php:601-613 | The marks averaged are exactly the non-NULL raw marks, and there are none only when no attempt is graded. |
| Grades.RunningMaxIsLargest | locallib.php:615-623 | The loose-comparison running maximum is NULL only when nothing is graded. Otherwise it is one of the marks (or the start value), and no mark exceeds it. |
| Grades.HighestIsMaximum | locallib.php:615-623 | "Highest" is NULL exactly when no attempt is graded. Otherwise it is one attempt's mark, and no attempt has a larger one. |
| Grades.AverageNullWhenUngraded | locallib.php:601-613 | "Average" is NULL exactly when no attempt is graded. |
| Grades.AverageIsMean | locallib.php:601-613 | When present, "average" is the sum of the non-NULL marks divided by their count. |
| Grades.MeanBetween | locallib.php:601-613 | A mean lies between any lower and upper bound of the averaged values. |
| Grades.AverageBetweenMarks | locallib.php:601-623 | The average never exceeds the highest mark, nor falls below a lower bound of the marks. |
| Grades.HighestAttempt | locallib.php:953-962 | The best-attempt scan returns an attempt whose mark no later attempt exceeds. It keeps the earlier attempt on a tie, and it returns none when no mark beats the start value. |
| Grades.BestAttempt | locallib.php:925-964 | "First" picks the first attempt, "last" and "average" the last one. For these three a best attempt exists exactly when there is an attempt, and on attempts in attempt order it has the lowest (first) or highest (last, average) attempt number. Under "highest" it is a position among the attempts. |
| Grades.BestAttemptCarriesBestGrade | locallib.php:938-951 | Under "first" and "last" the best attempt exists exactly when there is an attempt, and its mark is exactly the best grade. |
| Grades.FetchedBestAttemptByNumber | locallib.php:938-951 | Among the fetched attempts, "first" picks one whose number is no larger than any selected attempt's, "last" and "average" one whose number is no smaller. |
| Grades.BestAttemptHasBestGrade | locallib.php:936-964 | With marks above -1, the best attempt under "highest" carries exactly the highest mark. It is absent exactly when no attempt is graded. |
| Grades.Rescale | locallib.php:352-366 | NULL stays NULL. A raw mark against a total below 0.000005 rescales to 0. |
| Grades.RescaleKeepsProportion | locallib.php:352-366 | With a total of at least 0.000005, the rescaled grade is to the maximum as the raw mark is to the total. |
| Grades.HasGradesBoundsRescale | lib.php:380-382 | A graded quiz has non-zero maximum and total, so division by either is safe, and a raw mark within the total rescales into [0, maximum]. |
| Grades.RescaleMonotonic | locallib.php:352-366 | Rescaling keeps the order of raw marks. |
| Regrade.SaveBestGrade | locallib.php:544-580 | After saving, the user's row holds exactly their rescaled best grade, and is absent when that grade is NULL. No other user's row changes. |
| Regrade.BestGradeWithin | locallib.php:589-625 | Every grading method picks a raw mark within any bounds of the attempts' marks. |
| Regrade.SavedGradeWithinMaximum | locallib.php:544-580 | In a graded quiz whose marks lie within the total, the saved grade lies between 0 and the maximum grade. |
| Regrade.RemoveAttempt | locallib.php:164-165 | Deleting an attempt removes exactly the attempt with that id. |
| Regrade.DeleteAttempt | locallib.php:150-175 | An attempt of another quiz is ignored. Otherwise exactly that attempt goes, and no other user's grade row changes. |
| Regrade.DeleteAttemptRegrades | locallib.php:167-175 | After a deletion, the owner's grade row is exactly their recomputed best grade. This includes dropping the row when no attempt is left. |
| Regrade.Eligible | locallib.php:701-710 | The bulk query aggregates exactly the user's finished, non-preview attempts at the quiz. |
| Regrade.MinNumber | locallib.php:643-657 | The first-attempt subquery picks the smallest attempt number present. |
| Regrade.MaxNumber | locallib.php:643-657 | The last-attempt subquery picks the largest attempt number present. |
| Regrade.AtNumber | locallib.php:659-675 | The join on the attempt number keeps exactly the rows with that number. |
| Regrade.Aggregate | locallib.php:659-688 | No rows give NULL. MAX and AVG are NULL exactly when no row is graded. Every method but AVG yields the mark of one of the rows. |
| Regrade.AggregateOrderFree | locallib.php:659-688 | The aggregate is a function of the set of rows the query joins: reordering them changes nothing. |
| Regrade.ColumnMaxSameMembers | locallib.php:682-687 | SQL MAX depends only on which rows are present. |
| Regrade.NewGrade | locallib.php:690-710 | No eligible attempt gives NULL. A negligible total gives the constant 0. Otherwise the grade is NULL exactly when the aggregate is. |
| Regrade.NewGradeIsRescaled | locallib.php:690-694 | With a non-negligible total, the new grade is the per-user rescaling of the aggregate. |
| Regrade.Recompute | locallib.php:712-772 | A user gets an action exactly when the stored and new grades differ by more than 0.000005, or exactly one of them is NULL. A NULL new grade means delete, and a NULL stored grade means insert. |
| Regrade.Apply | locallib.php:744-772 | The actions are carried out on the grades table, and users without an action keep their row. |
| Regrade.UpdateAllFinalGrades | locallib.php:635-773 | A changed user ends with the new grade, or without a row when it is NULL. An unchanged user keeps the stored row. |
| Regrade.NonCandidatesUnchanged | locallib.php:715-732 | A user the query does not look at has nothing to change. |
| Regrade.OutsideCandidates | locallib.php:715-732 | A user with neither a grade row nor an eligible attempt has no new grade. |
| Regrade.UpdateAllReachesNewGrades | locallib.php:635-773 | After a bulk run, a user has a row exactly when they have a new grade, and the row is within the tolerance of it. |
| Regrade.RecomputeIdempotent | locallib.php:635-773 | A second bulk run straight after the first produces no actions. |
| Regrade.EligibleIsFinishedAttempts | locallib.php:701-710 | Without abandoned attempts, the bulk query keeps exactly the rows the per-user WHERE clause keeps, in the same order. |
| Regrade.UserAttemptsStrictlyAscending | lib.php:536-538 | When each user's attempt numbers at a quiz are distinct, the fetched attempts have strictly increasing numbers, whatever the table order. |
| Regrade.ColumnMaxIsRunningMax | locallib.php:682-687 | SQL MAX over the marks equals the per-user running maximum. |
| Regrade.FirstLastAgree | locallib.php:643-675 | For "first" and "last", the subqueries read the same attempt as the per-user path. |
| Regrade.AggregateIsBestGrade | locallib.php:643-687 | For every grading method, the bulk aggregate equals the per-user best raw mark. |
| Regrade.BulkMatchesPerUser | locallib.php:635-773 | For a user without abandoned attempts, in a quiz with a non-negligible total, the bulk recompute computes exactly the grade the per-user save stores. |
| Regrade.RescaleByRatio | locallib.php:690-694 | Multiplying by grade/sumgrades, as the bulk query does, is the per-user rescaling. |
| Regrade.AbandonedAttemptSplitsPaths | lib.php:516-520 | When the first attempt is abandoned, the bulk and per-user paths disagree under "first". |
| Regrade.ScaleBands | locallib.php:516-524 | Every feedback band limit is multiplied by the factor. |
| Regrade.SetGrade | locallib.php:484-532 | A change below 0.0000001 does nothing. Otherwise only the quiz's maximum grade changes among its settings. |
| Regrade.SetGradeKeepsRatios | locallib.php:501-524 | From an old maximum of at least 1, every stored grade and band limit keeps its ratio to the maximum. |
| Regrade.SetGradeMultiplies | locallib.php:501-514 | From an old maximum of at least 1, the maximum is set and every stored grade is multiplied by new/old. |
| Regrade.SetGradeRescaleMatchesRecompute | locallib.php:501-514 | Rescaling up-to-date grades gives exactly what a recompute against the new maximum gives. |
| Regrade.RescaleOneUser | locallib.php:501-514 | For one user, multiplying an up-to-date grade by new/old gives the new grade a recompute against the new maximum computes. |
| Regrade.UpdateSumgrades | locallib.php:430-441 | The quiz's total of marks becomes the sum of its question instances' marks. |
| Regrade.UpdateSumgradesUngrades | locallib.php:443-448 | With a negligible total and real attempts, the maximum grade drops to 0, so the quiz is no longer graded. |
| Regrade.UpdateSumgradesZeroesGrades | locallib.php:443-448 | With a negligible total, real attempts and a non-zero old maximum, every grade row left is 0 within the tolerance: rows are multiplied by 0 from a maximum of at least 1, and recomputed with the constant 0 from a smaller one. |
| Layout.Dedup | locallib.php:1274-1285 | Repeated question ids are dropped and every page break is kept. A kept id is an id of the input. |
| Layout.StripBreaks | locallib.php:1287-1299 | Removing empty pages keeps the questions in order, leaves no leading break and no two breaks in a row. |
| Layout.EnsureBreak | locallib.php:1301-1304 | The layout ends in a page break afterwards. Exactly one break is added, when it did not already end in one. |
| Layout.CleanLayout | locallib.php:1269-1307 | A cleaned layout ends in a break, holds each question once, and holds exactly the input's questions. With empty pages removed it has no empty page (unless it is just one break). |
| Layout.CleanLayoutIdempotent | locallib.php:1269-1307 | Cleaning a cleaned layout changes nothing. |
| Layout.DedupAppend | locallib.php:1278-1285 | The first occurrence of each id is the one kept: one more item extends the cleaned layout by it exactly when it is a new question or a break. |
| Layout.QuestionsInQuiz | locallib.php:218-225 | The question list holds each non-zero id of the layout once, and nothing else. |
| Layout.QuestionsAreDedup | locallib.php:218-225 | The question list is the cleaned layout without its page breaks. |
| Layout.QuestionsFirstOccurrence | locallib.php:218-225 | A new question at the end becomes the last question. A repeated id or a break adds nothing. |
| Layout.NumberOfPages | locallib.php:233-235 | The page count is zero exactly when the layout has no page break. |
| Layout.NumberOfQuestions | locallib.php:243-250 | The number of questions is the number of different non-zero ids in the layout. |
| Layout.SlotIn | locallib.php:1315-1323 | The slot is the 1-based position of the first occurrence of the question, or none if it is absent. |
| Layout.GetSlotForQuestion | locallib.php:1315-1323 | A question has a slot exactly when it is in the quiz, and the slot indexes that question. |
| Layout.Paginate | locallib.php:273-282 | Paginating keeps the questions in order, adding only page breaks. |
| Layout.PaginateAll | locallib.php:273-284 | The paginated layout ends in a break and holds exactly the given questions, in order. |
| Layout.Repaginate | locallib.php:262-286 | Repaginating ends the layout with a break and keeps the question sequence. No questions gives a single empty page. |
| Layout.RepaginateKeepsSlots | locallib.php:262-286 | Repaginating keeps every question's slot. |
| Layout.PaginateRunsAtMost | locallib.php:273-282 | With a positive per-page count, no page exceeds it. |
| Layout.PaginateAllPageSize | locallib.php:273-284 | With a positive per-page count, no page of the paginated layout exceeds it. |
| Layout.PaginateAllPages | locallib.php:273-284 | n > 0 questions fill exactly ceil(n / perpage) pages, and no questions make one page. |
| Layout.RepaginatePageSize | locallib.php:262-286 | Repaginating with a positive per-page count fills no page beyond it. |
| Layout.RepaginatePages | locallib.php:262-286 | Repaginating makes exactly as many pages as needed: ceil(n / perpage) for n questions, or one empty page. |
| Layout.PaginateUnlimited | locallib.php:276 | A per-page count of 0 never breaks a page. |
| Layout.PaginateNegative | locallib.php:276 | A negative per-page count breaks before every question. |
| Layout.RepaginateUnboundedOrNegative | locallib.php:262-286 | A per-page count of 0 puts every question on one page. A negative one starts with an empty page and then puts each question on its own page. |
| Review.When.Bit | locallib.php:1737-1740 | Each moment's review bit is non-zero. |
| Review.BitsDistinct | locallib.php:1737-1740 | Two moments share a bit only when they are the same moment. |
| Review.FormToDb | lib.php:1069-1087 | A stored mask carries only review bits. |
| Review.DbToForm | locallib.php:1785-1792 | The form shows a moment ticked exactly when its bit is set. |
| Review.FormToDbSetsTicked | lib.php:1069-1087 | A moment's bit is set exactly when the moment was ticked. |
| Review.FormRoundTrip | lib.php:1069-1087 | Reading a stored mask back gives exactly the ticked moments. |
| Review.DbRoundTrip | lib.php:1069-1087 | Storing what a mask shows gives the mask back, less any non-review bit. |
| Review.ProcessReviewOptions | lib.php:1052-1062 | The attempt itself is always reviewable during the attempt, and the overall feedback never is. |
| Review.ProcessedMasksFollowForm | lib.php:1052-1062 | Apart from those two forced bits, each stored bit is exactly a tick on the form. |
| Review.MakeFromQuiz | locallib.php:1762-1783 | The marks level is "max only" or "mark and max", and the parts-correct option follows the specific feedback. |
| Review.DisplayFollowsForm | locallib.php:1762-1792 | At every moment each display option is shown exactly when its moment was ticked. Marks fall back to "max only", the attempt always shows during the attempt, and the overall feedback never does. |
| Review.MarkDecimalPoints | locallib.php:1776-1780 | The quiz-wide decimal places apply exactly when the question setting is -1. |
| Review.AttemptState | locallib.php:1159-1169 | An attempt is "during" exactly while in progress, and "after close" only once a set closing time has passed. |
| Review.AttemptStateMonotonic | locallib.php:1159-1169 | As time passes, an attempt only moves forward through the moments. |
| Review.AttemptStateEventuallyClosed | locallib.php:1159-1169 | A finished attempt is "after close" once the quiz has closed and two minutes have passed since it finished. |
| Review.AnyShows | locallib.php:1234-1256 | The "some" flag is set exactly when at least one attempt shows that information. |
| Review.AllShow | locallib.php:1234-1256 | The "all" flag is set exactly when every attempt shows that information. |
| Review.MaxMarks | locallib.php:1234-1256 | The "some" marks level is the best over the attempts, and hidden exactly when there are none. |
| Review.MinMarks | locallib.php:1234-1256 | The "all" marks level is the worst over the attempts, and "mark and max" when there are none. |
| Review.CombinedFlags | locallib.php:1234-1256 | The combined options show a flag for some or for all attempts exactly when some or all attempts show it. |
| Review.CombinedMarks | locallib.php:1234-1256 | Every attempt's marks level lies between the combined "all" and "some" levels, and both levels are attained. |
| Review.AllImpliesSome | locallib.php:1234-1256 | Whatever every attempt shows, some attempt shows, and the worst marks level never exceeds the best. |
| Review.CombinedOfNoAttempts | locallib.php:1238-1243 | With no attempts, nothing is shown by "some" and everything by "all". |
| Review.CombinedReviewOptions | locallib.php:1234-1256 | With no attempts, "some" shows nothing with hidden marks and "all" shows everything with mark and max. Otherwise every flag "all" shows, "some" shows, and the "all" marks level never exceeds the "some" level. |
| Review.GradeItemHidden | lib.php:699-728 | The hidden value is 0, 1 or the set closing time, and it is 0 only for a visible module. |
| Review.GradeItemHiddenPolicy | lib.php:699-728 | With marks shown neither later while open nor after close, the grade item is hidden. With marks shown only after close, it is hidden until the closing time (or for good without one). Otherwise it follows the module's visibility. |
| Review.GradeItemShown | lib.php:699-728 | The grade item is shown exactly when marks are ticked for "later while open" and the module is visible. |
| Feedback.Value | lib.php:1007-1016 | Only a number or a percentage is a boundary value. A percentage is a share of the quiz grade. |
| Feedback.Used | lib.php:1005-1006 | The loop reads the boundaries up to the first empty one. |
| Feedback.ParseBoundaries | lib.php:1004-1027 | The boundaries are accepted exactly when each lies strictly between 0 and the grade and below the one before. Otherwise the first bad one is reported. The error is "badly formed" exactly for a malformed percentage, "out of range" for a value outside (0, grade), and "order" for an in-range value not below the one before. |
| Feedback.FirstJunk | lib.php:1029-1043 | The junk check reports the first non-empty field after the used ones, or none. |
| Feedback.HasJunk | lib.php:1030-1036 | A boundary field is junk exactly when it is neither empty nor blank. |
| Feedback.ProcessFeedback | lib.php:994-1050 | The feedback is accepted exactly when the boundaries pass and no boundary or feedback text follows the used ones. Otherwise the error names the first offending field: boundary errors come first, then the first non-blank boundary field after the used ones, then the first non-empty feedback text after them. |
| Feedback.SentinelsDecreasing | lib.php:1044-1047 | With the sentinels grade + 1 and 0, the boundaries fall strictly from index -1 to index n. |
| Feedback.BandFor | lib.php:1044-1047 | Every grade from 0 to the maximum falls in the band of some feedback. |
| Feedback.BandUnique | lib.php:1044-1047 | No grade falls in two bands. |
| NumAttempts.Make | accessrule/numattempts/rule.php:40-47 | There is no rule exactly when the allowed number of attempts is 0 (unlimited). Otherwise the rule carries that number. |
| NumAttempts.PreventNewAttempt | accessrule/numattempts/rule.php:53-58 | A new attempt is refused exactly when the previous attempts reach the allowed number. |
| NumAttempts.IsFinished | accessrule/numattempts/rule.php:60-62 | The user is finished exactly when a new attempt is refused. |
| NumAttempts.PreventIffFinished | accessrule/numattempts/rule.php:53-62 | A new attempt is refused exactly when the user is finished. |
| NumAttempts.PreventMonotonic | accessrule/numattempts/rule.php:53-62 | Once refused, always refused: more attempts never reopen the quiz. |
| NumAttempts.AllowsExactly | accessrule/numattempts/rule.php:40-58 | A quiz allowing k > 0 attempts allows exactly the first k. |
| NumAttempts.UserOverrideDecidesRule | accessrule/numattempts/rule.php:40-47 | A user override of the attempt count decides the rule: 0 removes the limit, and any other count becomes it. |
| NumAttempts.GroupUnlimitedLiftsLimit | accessrule/numattempts/rule.php:40-47 | Without a user value, a group override of 0 attempts removes the limit. |
| Events.EventsFor | lib.php:1251-1333 | One quiz or override gives at most two events, none with a negative duration. |
| Events.QuizEvents | lib.php:1297-1333 | The quiz gives a single event when both times are set and at most five days apart. Otherwise it gives an opening and a closing event for whichever times are set. |
| Events.WholeEventSpansOpenPeriod | lib.php:1276-1307 | A single event starts at the opening time and lasts until the closing time, at most five days. |
| Events.OverrideEventsFollowSetTimes | lib.php:1257-1333 | An override's opening or closing event exists only for a non-zero time it sets, and starts there. When the override's group still exists, each non-zero time it sets is covered by an event. |
| Events.OverrideWithoutTimesAddsNothing | lib.php:1257-1259 | An override that sets neither time adds no event. |
| Events.UserEventsHaveNoCourse | lib.php:1270 | User events belong to no course, and they carry the user. |
| Events.AllEvents | lib.php:1239-1333 | Each entry of the to-do list adds at most two events. |
| Events.Assign | lib.php:1297-1332 | Stored events are reused in order, one per new event, and new events beyond them are inserted. |
| Events.AssignPartitionsStored | lib.php:1297-1340 | Every stored event is either reused or deleted, never both and never lost. Exactly the surplus is deleted. |
| Events.Loaded | lib.php:1229-1237 | The loaded ids are exactly the ids of the stored events for the quiz, or for the one override's user and group. Without an override all of them are loaded. |
| Events.UpdateEventsAccounts | lib.php:1226-1341 | Updating the events reuses loaded ids in order and deletes exactly the loaded events left over. |
| Events.UpdateEvents | lib.php:1226-1341 | One write per event of the to-do list, in order, and at most two for a single override. Only loaded events are deleted. |

## Left out

- Database access, transactions and the dialect-specific SQL text. Tables are sequences and maps, and a query is its set semantics.
- Calendar writes, gradebook updates (`grade_update`), the locked-grade-item prompt, messaging and notifications. These are host services. Only the events and grades they would receive are modelled.
- Group membership, course modules and capabilities. Their results are parameters: the user's groups, the existing groups and the module's visibility.
- `time()`. The current time is the parameter `now`.
- Question shuffling in repagination (locallib.php:269-271). It depends on randomness, so only the unshuffled order is modelled.
- `format_float`, event names, descriptions and visibility, forms, renderers, settings pages, language strings and log tables.
- `extendedquiz_store_vars`, which reads the request directly.
- The quiz-table write in `set_grade` (locallib.php:499). It finds the row by `$quiz->instance`, which the caller must have set. The model sets the maximum on the quiz value directly.
- Overrides.EffectiveAccess: the contract states the user-value rule. The group rules are stated in the separate lemmas listed above.
- Overrides.UserTimeSqlAgrees: assumes at most one user row and no negative group values. The SQL `> 0` join drops negative values, while the PHP `max` would keep them.
- Grades.RunningMaxIsLargest: marks fetched from the database are numeric strings, which PHP's loose `>` ranks above NULL. A float 0.0 would not beat NULL, and that case is not modelled.
- Grades.BestAttemptHasBestGrade: assumes marks above -1, the start value of the scan.
- Grades.UserAttempts: SQL leaves the order of rows with equal attempt numbers open. The model keeps such rows in one fixed order. Attempt numbers are unique per (quiz, user) in the database, so no tie arises there.
- Overrides.GroupPasswordsSplit: the group rows come from a query without ORDER BY (lib.php:264-267), so the database decides which group password becomes the password and in which order the others become the extra passwords. The model fixes table order.
- Regrade.BulkMatchesPerUser: assumes no abandoned attempts, a non-negligible total and distinct attempt numbers per user at each quiz. The two queries differ on abandoned attempts. Attempt numbers are unique per (quiz, user) in the database.
- Regrade.SetGrade: an old maximum below 1 recomputes through the bulk recompute. Its contract states only that the maximum is set, not the recomputed values.
- The early return of `update_all_final_grades` on a false total (locallib.php:638-640). The total is read from the database as a decimal string such as "0.00000", which PHP treats as true, so the return does not fire for a stored quiz and the model has no such guard.
- Regrade.UpdateSumgrades: the sum is exact. The code's write of the maximum grade goes through `set_grade`, whose recompute is modelled separately.
- Feedback.ParseBoundaries: boundary fields come pre-classified (empty, number, percentage, badly formed percentage, blank). Arbitrary non-numeric text, which PHP compares by its own string rules, is not modelled.
- Feedback.ProcessFeedback: a quiz without any feedback text (boundary count -1) is not modelled. Only the boundary checks are.
- Review: the display-level constants of `question_display_options` (hidden 0, visible 1, max-only 1, mark-and-max 2) are defined outside this plugin and taken as given.
- Events: whether a group still exists is the parameter `existingGroups`. Event names, descriptions and visibility come from language strings and host calls, and are not modelled.
- OverrideEdit.TargetChanged: the code compares the submitted and stored user or group id with PHP's strict `!==` (overrideedit.php:141, 143). The model compares the values. A stored id read back as a string would count as changed under `!==`. The model does not follow that reading, because the value types depend on the database driver.
- OverrideEdit.NormaliseUnchanged: PHP's loose `==` between a form value and the quiz setting is taken to be plain equality.
- Layout: a layout is taken as already split into ids. The string clean-up of empty items (locallib.php:1272) and PHP's comparison of non-numeric items with 0 are not modelled, and the empty layout is the empty sequence.
- `extendedquiz_delete_override` (lib.php:197-213) deletes a row and its events. The row deletion is `OverrideEdit.Remove`, and the event side is left to the calendar.
