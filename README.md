# Budget manager core in Dafny

This project models the business core of a Django budget-manager backend:

- **Goals** (goal/models.py). These are savings or expense goals with a start, an expected completion date, a status and an optional monthly recurrence. `Goal.save` runs validators before a goal is stored.
- **Contribution ranges.** Each user has a set of pairwise disjoint day ranges.
- **Goal contributions.** Each is a goal's percentage pledge on one range. The pledges on a range total at most 100 percent.
- **`add_new_range`.** It cuts every range that a new window overlaps into left, middle and right pieces, carries the pledges over to each piece, and fills, via `find_gaps`, the parts of the window that no piece covers.
- **Progress.** This includes `contribution`, the share of a range's net savings, and `get_progress`.
- **goal/utils.py.** It holds the month arithmetic, `update_status`, which refreshes goal statuses, and `create_goals`, which creates the successor of every recurring goal that is due.
- **goal/signals.py.** Its `post_save` handler creates default contributions for a new goal.
- **The `update_status` management command.**
- **Budgets** (budget/models.py). `Budget.save` guards a save. `get_budget_by_category` is the monthly summary of budget versus actual spending per category.
- **Categories** (category/models.py). `save` enforces one default per user and income flag, and `delete` protects default categories.
- **File uploads** (fileupload/models.py, fileupload/serializers.py). This covers the status values, the storage path `upload_to` builds, the extension check and message truncation in `save`, and the serializer's displayed file name and extension validation.

Modules and their concerns:

| module | concern |
|---|---|
| `Wrappers` | `Option`, `Result`, `Outcome` |
| `Calendar` | Gregorian dates as `datetime.date` provides them (years 1 to 9999), day ordinals, next and previous day |
| `Text` | `str.split`, `str.join`, `str.count`, `str.endswith`, decimal digits |
| `Spans` | inclusive day spans; `sorted(..., key=...)` as a stable insertion sort |
| `RangeGaps` | `find_gaps` |
| `RangePlan` | the pieces and fills `add_new_range` plans, on spans |
| `Goals` | the `Goal` model and `Goal.save` |
| `Ledger` | the store of goals, ranges and contributions (`class Db`), the `ContributionRange` and `GoalContribution` save paths, `add_new_range` |
| `Progress` | `contribution`, `get_progress` |
| `GoalSignals` | `on_goal_create` |
| `GoalUtils` | `diff_month`, `add_months`, `update_status`, `create_goals` |
| `StatusCommand` | `Command.handle` |
| `Budgets` | `Budget`, `get_budget_by_category` |
| `Categories` | `Category` |
| `FileUploads` | `FileUpload`, `upload_to` |
| `UploadSerializers` | `CustomFileField.to_representation`, `FileUploadSerializer.validate_file` |

How the source's features are represented:

- **Classes for stateful code.** Django rows that the source updates in place become classes with fields:
  - `Goals.Goal`, the instance being saved;
  - `Ledger.Db`, the three tables;
  - `Categories.CategoryTable`;
  - `Budgets.Budget` and `Budgets.BudgetTable`;
  - `FileUploads.FileUpload`.

  Their methods carry `modifies` clauses and state the new state: the fields they replace, and for the tables they add to or delete from, which rows are kept and which are new.
- **Loops.** The source's loops are `while` loops with invariants. They appear in:
  - `add_new_range`, `add_contributions` and `find_gaps`;
  - the refresh loops;
  - `create_goals`;
  - the signal handler;
  - the summary loop.
- **Pure code.** Pure computations are functions: queries, the month arithmetic, `upload_to` and `to_representation`.
- **Dates.** The range engine works on day ordinals (`date.toordinal()`).
- **Exceptions.** Raised exceptions are `Err` or `Fail` results. The error cases follow the source's order of checks.
- **Environment inputs.** "Today", "now" and a goal's progress are parameters.

## Model

| member | source | states |
|---|---|---|
| Goals.Goal.constructor | goal/models.py:50-73 | a goal instance holds the given fields unchanged |
| Goals.Goal.Row | goal/models.py:50-73 | the stored row carries the instance's user, dates, status and recurrence under the given id |
| Goals.Goal.ValidateRecurring | goal/models.py:102-112 | a recurring goal without a truthy frequency is refused, any other passes, nothing changes |
| Goals.Goal.ValidateCompletionDate | goal/models.py:78-92 | an expected date before today or before the start is refused; otherwise it moves to the last day of its month |
| Goals.Goal.ValidateActualCompletionDate | goal/models.py:94-100 | an actual date before the start is refused |
| Goals.Goal.ValidateStatus | goal/models.py:114-120 | a completed goal without an actual date gets today's; a non-completed goal with one is refused |
| Goals.Goal.Save | goal/models.py:122-135 | the checks in source order, start defaulted to today and moved to the 1st; success leaves a valid row, and re-saving a stored valid goal whose expected date is not past changes nothing; on a refusal the start is already moved to the 1st unless the frequency check refused, the expected date moves to the end of its month only once its own check passed, and the actual date is unchanged |
| Progress.NetSavedSigned | goal/models.py:758-782 | income minus expense over the grouped query equals the signed sum over the single transactions of the range's days |
| Progress.NetSavedIgnoresOthers | goal/models.py:758-782 | transactions of other users or outside the range do not change the net savings |
| Progress.ContributionShares | goal/models.py:758-782 | an uncached contribution of 100 percent saves the whole net, one of 0 saves nothing, and one of at most 100 percent saves between 0 and a non-negative net |
| Progress.Contribution | goal/models.py:758-782 | defines the `contribution` property: the cached amount when there is one, otherwise the range's net savings times the percentage over 100 |
| Progress.RangeSharesTotal | goal/models.py:758-782 | without cached amounts, the contributions on a range together save its net times its total percentage over 100 |
| Progress.RangeSharesFull | goal/models.py:758-782 | a range pledged to exactly 100 percent hands out exactly its net savings |
| Progress.GoalTotalNone | goal/models.py:137-147 | a goal without contributions has a total of 0 |
| Progress.GetProgress | goal/models.py:137-147 | the total, or the total as a percentage of the amount; refused for amount 0 with a percentage |
| Progress.ProgressComplete | goal/models.py:137-147 | progress is 100 exactly when the contributions add up to the amount |
| Progress.ProgressExample | goal/models.py:137-147 | half a January range of income 500 and spending 200 gives 150, which is 15 percent of 1000 |
| RangeGaps.FindGaps | goal/models.py:157-173 | the cursor loop returns exactly Gaps of the spans sorted by start |
| RangeGaps.GapsMeaning | goal/models.py:157-173 | for disjoint spans the gaps are the ascending maximal uncovered sub-intervals of the window |
| RangeGaps.GapsExact | goal/models.py:157-173 | a day of the window lies in a gap exactly when no span covers it |
| RangeGaps.GapsMaximal | goal/models.py:157-173 | the days next to a gap are covered or outside the window |
| RangeGaps.GapsSeparated | goal/models.py:157-173 | gaps ascend with at least one covered day between them |
| RangeGaps.GapsInside | goal/models.py:157-173 | every gap lies inside the window |
| RangeGaps.WalkIsGaps | goal/models.py:163-173 | the accumulating loop body computes Gaps |
| Spans.SortBy | goal/models.py:682 | `sorted(key=...)` returns a permutation of its input |
| Spans.SortBySorted | goal/models.py:682 | the result of `sorted(key=...)` is ordered by the key |
| Spans.CoveredByPermutation | goal/models.py:682 | sorting does not change which days are covered |
| Ledger.TotalUpdate | goal/models.py:211-219 | changing one contribution's percentage moves its range's total by the difference and no other total |
| Ledger.TotalPercentage | goal/models.py:211-219 | defines `total_percentage`: the sum of the percentages of the contributions on a range |
| Ledger.GetOverlappingRanges | goal/models.py:221-230 | the user's ranges that the three-way filter keeps, in table order |
| Ledger.OverlapIsIntersection | goal/models.py:221-230 | the three-way filter is exactly closed intersection with the window |
| Ledger.OverlapShape | goal/models.py:221-230 | on a consistent store the overlapping ranges are distinct, well-formed, pairwise disjoint and meet the window |
| Ledger.InOverlapById | goal/models.py:221-230 | a stored range is returned exactly when its id is |
| Ledger.SameWindowOverlap | goal/models.py:221-230 | a stored range is the only range its own window overlaps |
| Ledger.LaterWindowOverlapsNone | goal/models.py:221-230 | a window after all of a user's ranges overlaps none of them |
| Ledger.Db.constructor | goal/models.py:176-186 | an empty store is consistent |
| Ledger.Db.InsertGoal | goal/models.py:135 | a valid goal row is stored under the next goal id and nothing else changes |
| Ledger.Db.UpdateGoal | goal/models.py:135 | a stored goal's row is replaced by a valid row and nothing else changes |
| Ledger.Db.CreateRange | goal/models.py:191-209 | a range is refused unless start < end and no range of the user meets it; otherwise it is appended under the next id |
| Ledger.AppendRangeOk | goal/models.py:191-209 | a fresh range meeting none of its user's ranges keeps the store consistent and has no pledges |
| Ledger.Db.DeleteRange | goal/models.py:713-715 | deleting a range is refused while a contribution points at it (PROTECT); otherwise only that row goes |
| Ledger.RemoveRangeOk | goal/models.py:713-715 | deleting a range nothing points at keeps the store consistent |
| Ledger.Db.CreateContribution | goal/models.py:704-756 | a new contribution is refused for a completed goal, for a range outside the goal's window and above 100 percent in total; otherwise it is appended under the next id |
| Ledger.Db.UpdateContribution | goal/models.py:720-756 | a re-save skips the completed check, keeps the window check, and counts only the other contributions plus the new percentage against 100 |
| Ledger.AppendContributionOk | goal/models.py:720-756 | a contribution that keeps its range within 100 percent keeps the store consistent and adds its pledge to that range only |
| Ledger.ResaveAllowedMeaning | goal/models.py:720-733 | the intended check accepts exactly the updates leaving the range at most 100 percent; the check as written accepts only some of them |
| Ledger.ResaveCountsOwnShare | goal/models.py:720-733 | as written, lowering the only contribution of a full range from 100 to 50 is refused, and so is re-saving it unchanged |
| Ledger.Db.AddPledge | goal/models.py:554-560 | one backed-up pledge becomes one new contribution without a cached amount exactly when its goal is not completed, the row lies in the goal's window and the row's total stays within 100; a completed goal is refused with `CompletedGoal`; a refusal changes nothing; every stored contribution stays stored |
| Ledger.PledgeFits | goal/models.py:735-753 | defines the checks of `GoalContribution.save` other than the total: the goal is not completed and the range lies inside its window |
| Ledger.Db.CopyPledges | goal/models.py:554-560 | `add_contributions` succeeds exactly when every backed-up pledge fits the row and the row's total with them stays within 100; it then gives the row exactly those pledges, in order, as new contributions without a cached amount, and leaves other ranges alone; pass or refuse, every stored contribution stays stored, nothing new lands on another range and the other ranges' pledges are unchanged |
| Ledger.Db.CopyNext | goal/models.py:554-560 | one pass of `add_contributions` goes through exactly when the pledge fits the row and the total stays within 100; the row's pledges grow by that pledge and nothing else changes on other ranges |
| Ledger.Db.DeleteContributionsOf | goal/models.py:562-575 | only the contributions on the range are deleted |
| Ledger.PledgesDropOther | goal/models.py:562-575 | deleting one range's contributions keeps every other range's pledges |
| Ledger.PledgesDropSelf | goal/models.py:562-575 | after deleting them the range has no pledges |
| Ledger.DropOk | goal/models.py:562-575 | deleting one range's contributions keeps the store consistent |
| Ledger.Db.Detach | goal/models.py:562-575 | a pass starts by backing up the range's pledges, deleting its contributions, then the range; every contribution on another range stays stored |
| RangePlan.PieceSpans | goal/models.py:600-671 | defines the left, middle and right pieces one pass of `add_new_range` cuts from a range, each present only when its `if` holds |
| RangePlan.Filled | goal/models.py:456-671 | defines `filled_ranges`: the pieces of every overlapping range, in loop order |
| RangePlan.PieceShape | goal/models.py:577-671 | pieces are well-formed, ascending and inside the range; only the left piece reaches before the window and only the right piece past it |
| RangePlan.PieceCover | goal/models.py:577-671 | the pieces cover every day of the range except the single day a range that meets the window in one day loses |
| RangePlan.FilledWithin | goal/models.py:577-671 | every piece lies inside the range it came from |
| RangePlan.FilledDisjoint | goal/models.py:577-671 | no two distinct pieces share a day |
| RangePlan.FilledReady | goal/models.py:674 | the pieces are a valid input for `find_gaps` on the window |
| Ledger.Db.CreatePiece | goal/models.py:600-671 | one piece is created as a fresh range of the user carrying the backed-up pledges, exactly when it is longer than a day, meets no range of the user, every pledge fits it and their total is within 100; every stored contribution stays stored and a new one lies only on the range created here, uncached |
| Ledger.Db.AddPiece | goal/models.py:600-671 | the piece is appended to those made so far and holds the pledges; it succeeds under the same conditions as CreatePiece; every stored contribution stays stored and new ones lie only on ranges created here, uncached |
| Ledger.Db.Rebuild | goal/models.py:600-671 | the left, middle and right pieces are created with the planned spans, each holding the removed range's pledges; a success means every planned piece fits the pledges, and on a window the range meets, pieces that all fit always succeed; every stored contribution stays stored and new ones lie only on ranges created here, uncached |
| Ledger.Db.SplitRange | goal/models.py:459-672 | one pass replaces an overlapping range by its pieces, which carry its pledges, and leaves all other ranges' pledges alone; on a window the range meets it succeeds exactly when every piece is longer than a day and takes every pledge of the range; every contribution on another range stays stored and new ones lie only on ranges created here, uncached |
| Ledger.Db.SplitAll | goal/models.py:459-672 | the loop replaces every overlapping range by its pieces, in order, each piece carrying its origin's pledges; on a window every range meets it succeeds exactly when every range's pieces fit its pledges; new contributions have no cached amount; every contribution on a range outside the overlap stays stored and new ones lie only on ranges created here |
| Ledger.SplitStateNext | goal/models.py:459-672 | one loop pass keeps the invariant that pieces replace handled ranges and pledges are preserved |
| Ledger.Db.SplitNext | goal/models.py:458-672 | one pass of the split loop over one overlapping range: on success the loop state advances by that range's pieces and they fit its pledges; on a window the range meets it succeeds whenever they fit; contributions on ranges not yet split stay stored and new ones lie only on ranges created here |
| Ledger.KeptStep | goal/models.py:459-672 | one pass of the split loop keeps every contribution on the ranges not yet split and adds only uncached ones on new ranges |
| Ledger.Db.FillGaps | goal/models.py:674-680 | one new range of the user without pledges per gap, in order; a success means every gap is longer than a day, and gaps free of the user's ranges that are all longer than a day are always filled |
| Ledger.Db.AddNewRange | goal/models.py:431-684 | with no overlap, exactly the window is created, refused exactly when it is not longer than a day; otherwise the result of Added: overlapping ranges are replaced by pieces and fills sorted by start, pieces inherit pledges, and others are untouched; with an overlap and start on or before end it succeeds exactly when every piece takes its origin's pledges and every gap is longer than a day; every new contribution has no cached amount; a refusal leaves the store unchanged; every contribution on a range outside the overlap stays stored, with its id and cached amount, and new ones lie only on ranges created here |
| Ledger.Added | goal/models.py:431-684 | defines the store after a successful `add_new_range`: the overlapping ranges are replaced by their pieces and the gap fills, sorted by start, each piece with its origin's pledges and each fill without; everything else is untouched |
| Ledger.Splittable | goal/models.py:459-680 | defines when `add_new_range` over overlapping ranges goes through: every piece is longer than a day and takes every pledge of its origin, and every gap is longer than a day |
| Ledger.Db.Reshape | goal/models.py:459-684 | split, fill and sort establish Added; for start on or before end it succeeds exactly when the overlapping ranges are splittable; new contributions have no cached amount; every contribution on a range outside the overlap stays stored and new ones lie only on ranges created here |
| Ledger.Db.Extend | goal/models.py:600-671 | a piece that is not planned leaves the result alone; a planned piece after a success is added exactly when it fits the pledges and lies in the range apart from the pieces before it; every stored contribution stays stored and new ones lie only on ranges created here, uncached |
| Ledger.Db.FillNext | goal/models.py:674-680 | one more gap becomes a range without pledges; a gap longer than a day that is free of the user's ranges is always filled |
| Ledger.Db.FillWindow | goal/models.py:674-684 | after the split, the gaps are found, filled and sorted into an Added result; for start on or before end it succeeds exactly when every gap is longer than a day |
| Ledger.PieceParts | goal/models.py:600-671 | the plan of a range is its left, middle and right piece, and it fits exactly when each piece present fits |
| Ledger.CopyTotals | goal/models.py:554-560 | copying one more pledge adds its percentage to the copied total |
| Ledger.CompletedPledgeRefused | goal/models.py:554-560 | an overlapping range holding a pledge of a completed goal makes `add_new_range` refused |
| Ledger.OneDayGapScenario | goal/models.py:674-680 | days 1-60 and a window 30-61 leave a gap of one day, day 61, so the call is refused whatever the pledges |
| Ledger.SameWindowSplittable | goal/models.py:431-684 | re-adding a stored range's window goes through exactly when each of its pledges fits that window |
| Ledger.SingleRangeSplittable | goal/models.py:431-684 | a single range split over its own window goes through exactly when its pledges fit it |
| Ledger.OverlapScenarioSplittable | goal/models.py:431-684 | days 1-60 and a window 31-90 go through exactly when the pledges fit days 1-30 and days 31-60 |
| Ledger.AddedOverlapAgain | goal/models.py:221-230 | after an Added call, the ranges overlapping the same window are exactly the returned rows inside it |
| Ledger.AddedWindowCovered | goal/models.py:431-684 | after an Added call, the overlapping ranges of the same window cover every day of it |
| Ledger.AgainPlan | goal/models.py:431-684 | a second call on the same window plans exactly its overlapping ranges, with no pieces outside and no gaps |
| Ledger.AddedTwice | goal/models.py:431-684 | calling `add_new_range` twice on the same window returns, inside the window, rows with the same days and the same pledges as the first call, and nothing outside it |
| Ledger.SameDaysSame | goal/models.py:191-209 | on a consistent store, two ranges of a user over the same days are the same range |
| Ledger.AddedFresh | goal/models.py:442-452 | with nothing overlapping, the one new range of the window is Added |
| RangePlan.PlannedFresh | goal/models.py:442-452 | with nothing overlapping, the window itself is planned |
| Ledger.AddedStored | goal/models.py:431-684 | returned rows are stored and distinct |
| Ledger.AddedSided | goal/models.py:431-684 | every returned row lies before, inside or after the window |
| Ledger.AddedCoversWindow | goal/models.py:431-684 | the returned rows inside the window cover every day of the window |
| Ledger.AddedCoversExactly | goal/models.py:431-684 | the returned rows cover exactly the days of the overlapping ranges and of the window |
| Ledger.AddedSameWindow | goal/models.py:431-684 | re-adding an existing range's window keeps one range over the same days with the same pledges (SameWindowSplittable says when the call succeeds) |
| Ledger.InheritsSingle | goal/models.py:431-684 | with one overlapping range r, each returned row is a fill without pledges or a piece of r with r's pledges |
| Ledger.AddedOverlapScenario | goal/models.py:431-684 | days 1-60 and a window 31-90 leave 1-30 and 31-60 with the pledges, and a fill 61-90 without (OverlapScenarioSplittable says when the call succeeds) |
| RangePlan.PlannedSided | goal/models.py:431-684 | each planned span lies before, inside or after the window |
| RangePlan.PlannedCoversWindow | goal/models.py:431-684 | the window is covered by planned spans inside it |
| RangePlan.PlannedCoversExactly | goal/models.py:431-684 | planned spans cover exactly the overlapping ranges' days and the window's days |
| RangePlan.PlannedSameWindow | goal/models.py:431-684 | a window equal to a range plans just that range, with no gaps |
| RangePlan.FilledInside | goal/models.py:577-671 | ranges that lie inside the window are their own pieces |
| RangePlan.NoGaps | goal/models.py:157-173 | spans that cover every day of the window leave no gap |
| RangePlan.PlannedOverlapScenario | goal/models.py:431-684 | days 1-60 and a window 31-90 plan 1-30, 31-60 and 61-90 |
| RangePlan.OverlapScenarioSorted | goal/models.py:682 | those three spans are already ordered by start |
| GoalUtils.DiffMonth | goal/utils.py:6-7 | the difference is 0 exactly when both dates lie in one month, and positive exactly when d1's month is later; the days play no part |
| GoalUtils.AddMonths | goal/utils.py:10-19 | None exactly when the target year leaves 1 to 9999; otherwise a date exactly `months` months on, whose day is the source day or, when smaller, the last day of the target month |
| GoalUtils.AddMonthsZero | goal/utils.py:10-19 | adding 0 months gives the date back |
| GoalUtils.AddMonthsLater | goal/utils.py:10-19 | adding a non-negative number of months never gives an earlier date |
| GoalUtils.Transition | goal/utils.py:30-41 | a goal set to completed is stamped with today as its actual date; the row stays valid |
| GoalUtils.StatusRule | goal/utils.py:36-41 | defines the status a refresh gives: past due is completed at 100 percent progress and failed otherwise; started is in progress (on the start day itself for `update_status`, only after it for the command); otherwise pending |
| GoalUtils.VisitedIdsMeaning | goal/utils.py:27-29 | the visited ids are exactly the in-progress or pending goals of the user, in ascending order |
| GoalUtils.RefreshOne | goal/utils.py:30-41 | one visited goal gets the rule's status and is saved; all other goals are unchanged |
| GoalUtils.Refresh | goal/utils.py:27-41 | the loop leaves exactly the refreshed table |
| GoalUtils.UpdateStatus | goal/utils.py:22-43 | every visited goal gets the status of the rule, where a goal starting today is in progress; all other goals are unchanged |
| GoalUtils.RefreshedAll | goal/utils.py:22-43 | every visited goal has the rule's status, every other is unchanged, and all stay valid |
| GoalUtils.RefreshIdempotent | goal/utils.py:22-43 | refreshing twice on the same day equals refreshing once |
| GoalUtils.StatusRulesDiffer | goal/utils.py:36 | the rules of the function and of the command differ exactly for a goal not past due that starts today |
| GoalUtils.ResaveAsWritten | goal/utils.py:31-35 | as written, `goal.save()` of a goal past its expected date is refused and any other valid goal saves |
| GoalUtils.Predecessors | goal/utils.py:52-53 | an id is a predecessor exactly when a considered goal names it as previous |
| GoalUtils.Due | goal/utils.py:59-65 | defines the goals `create_goals` succeeds: recurring, not yet named as previous by another goal, and whose expected date lies at least the frequency in months before today's month |
| GoalUtils.Successor | goal/utils.py:66-84 | defines the successor row: it starts the day after its predecessor ends, ends as many months later as the predecessor spans (at the end of that month), names it as previous and is in progress; refused when a date leaves the calendar or the end is already past |
| GoalUtils.SuccessorShape | goal/utils.py:66-84 | the successor starts the day after its predecessor ends, ends the same number of months later, names it as previous, is in progress and is valid |
| GoalUtils.DueExample | goal/utils.py:61-65 | a January 2021 monthly goal is due on 1 February 2021; with frequency 2 it is not |
| GoalUtils.SuccessorExample | goal/utils.py:66-84 | the successor of 1-31 January 2021 runs 1-28 February 2021 |
| GoalUtils.BuildSuccessor | goal/utils.py:66-84 | the instance `Goal.objects.create` builds and saves is exactly Successor's row |
| GoalUtils.CreateSuccessor | goal/utils.py:74-86 | the successor is stored under the next goal id and `on_goal_create` runs for it; a successor the calendar refuses stores nothing; once stored, the successor stays stored even when `on_goal_create` is refused, which happens exactly when its window overlaps ranges that cannot be split |
| GoalUtils.CreateNext | goal/utils.py:58-86 | one pass gives a due goal its successor under the next id and skips every other goal |
| GoalUtils.CreateGoals | goal/utils.py:46-88 | in id order every considered due goal gets its successor; the returned ids are the new goals; the snapshot's goals are kept |
| GoalUtils.CreatedSnoc | goal/utils.py:74-86 | storing one more successor under the next id keeps the created-table relation |
| GoalSignals.Remaining | goal/signals.py:27 | on a range pledged at most 100 percent, the missing share and the total add up to 100 |
| GoalSignals.ToppedUpTotal | goal/signals.py:27-30 | a range topped up from a total within 100 totals exactly 100 |
| GoalSignals.ToppedUpSkip | goal/signals.py:23-26 | a row outside the goal's window is skipped |
| GoalSignals.ToppedUpAdd | goal/signals.py:27-30 | a row inside the window gains one pledge of the goal for its missing share |
| GoalSignals.TopUpRange | goal/signals.py:27-30 | one contribution of the goal for the missing share; refused only for a completed goal |
| GoalSignals.TopUp | goal/signals.py:21-30 | every returned row inside the goal's window gets one contribution for its missing share; no other range changes; a completed goal changes nothing and is refused exactly when some returned row lies inside its window; every stored contribution stays stored |
| GoalSignals.WindowProper | goal/signals.py:15-19 | a stored goal's window in days spans more than one day |
| GoalSignals.OnGoalCreate | goal/signals.py:8-30 | nothing happens unless created; otherwise `add_new_range` over the goal's window, then the top-up of its result; a goal that is not completed succeeds exactly when its window overlaps nothing or the overlapping ranges can be split; a completed goal is refused after the reshape, with no contribution of its own added; every contribution on a range outside the overlap stays stored |
| GoalSignals.WindowRowReturned | goal/signals.py:15-26 | after an Added call over a goal's window, some returned row lies inside the window |
| GoalSignals.CreateDefaults | goal/signals.py:15-30 | the ranges are reshaped as Added states, then topped up; a refused reshape changes nothing; a goal that is not completed succeeds exactly when its window overlaps nothing or the overlapping ranges can be split; a completed goal is always refused; every contribution on a range outside the overlap stays stored |
| GoalSignals.FirstGoal | goal/signals.py:8-30 | for a user without ranges, the goal's window becomes one range on which the goal holds 100 percent alone |
| StatusCommand.Handle | goal/management/commands/update_status.py:9-27 | every in-progress or pending goal of any user gets the command's rule status, where a goal starts only after its start date; all other goals are unchanged |
| StatusCommand.CommandVersusUtils | goal/management/commands/update_status.py:14-25 | the command and `update_status()` differ exactly in the visited goals, not past due, that start today |
| Categories.CategoryTable.constructor | category/models.py:8-19 | an empty table is consistent |
| Categories.CategoryTable.SaveAsWritten | category/models.py:23-32 | as written, a default category is refused whenever any default of its user and income flag is stored, itself included; otherwise a duplicate (name, user) is refused, and any other row is updated or inserted under the next id |
| Categories.ResaveDefaultRefused | category/models.py:23-32 | re-saving a stored default trips the guard as written but not the intended one |
| Categories.CategoryTable.Save | category/models.py:23-32 | a default is refused only when another default of its kind exists, a duplicate (name, user) is refused, otherwise the row is updated or inserted under the next id |
| Categories.CategoryTable.Write | category/models.py:32 | the write is refused by the (category, user) constraint, or updates or inserts exactly that row |
| Categories.DefaultGuardsAgree | category/models.py:23-32 | the intended guard refuses only what the guard as written refuses, and both agree on unsaved categories |
| Categories.DefaultScenario | category/models.py:23-48 | a first default is accepted, a second default of the same kind is refused, and the same name for another user is accepted |
| Categories.CategoryTable.Delete | category/models.py:34-40 | a default category is not deleted; any other stored category is removed; an unknown id is refused |
| Budgets.BudgetTable.constructor | budget/models.py:27-32 | an empty budget table is consistent |
| Budgets.Budget.constructor | budget/models.py:20-25 | a new budget holds the given fields |
| Budgets.Budget.Save | budget/models.py:37-46 | the start moves to the 1st even on failure; negative amounts, missing or foreign categories and taken keys are refused in this order; otherwise the row is appended |
| Budgets.SaveKeepsOwned | budget/models.py:44-46 | a successful save keeps every budget owned by its category's owner |
| Budgets.SameMonthClash | budget/models.py:27-41 | a new budget of a category and user starting on any day of a month in which a stored budget of them starts takes that budget's key |
| Budgets.NextMonth | budget/models.py:54 | the 1st of the following month (January of the next year after December), later than the given 1st; None exactly for December 9999 |
| Budgets.MonthWindow | budget/models.py:53-54 | the first and last day of the month; None only for December 9999 |
| Budgets.MonthWindowMeaning | budget/models.py:53-54 | a day lies in the window exactly when it lies in the month |
| Budgets.LatestStart | budget/models.py:62-69 | the greatest start on or before the window among the category's budgets, and None exactly when there is none |
| Budgets.SelectedBudgets | budget/models.py:57-73 | exactly the stored budgets of the user, of an expense category, that are latest for their category, in table order |
| Budgets.SelectedUnique | budget/models.py:57-73 | no two selected budgets share a category name |
| Budgets.LatestExample | budget/models.py:57-73 | a January budget of 100 wins over the previous year's 200 |
| Budgets.ActualNone | budget/models.py:76-93 | a name without transactions in the window has an actual of 0 |
| Budgets.ActualNonNegative | budget/models.py:76-93 | non-negative amounts give a non-negative actual |
| Budgets.BudgetFor | budget/models.py:101-108 | the amount of the first selected budget with the name, or 0 exactly when none has it |
| Budgets.EntriesSnoc | budget/models.py:117-124 | appending an entry of a new name keeps names distinct and entries correct |
| Budgets.Combine | budget/models.py:99-124 | one correct entry per category name, none twice |
| Budgets.CombineStep | budget/models.py:99-124 | one loop turn keeps the loop's state |
| Budgets.GetBudgetByCategory | budget/models.py:48-125 | an entry per name of a selected budget or a window transaction and no other, each with budget, actual and their difference; refused for a month whose window leaves the calendar |
| FileUploads.StatusValues | fileupload/models.py:9-17 | every status value fits 20 characters and no two statuses share one |
| FileUploads.Stamp | fileupload/models.py:23 | the `%Y%m%d%H%M%S` stamp is 14 digits |
| FileUploads.UploadTo | fileupload/models.py:20-29 | a name without exactly one "." is refused with that name; an accepted path lies under `uploads/user-{id}/` |
| FileUploads.UploadToOneDot | fileupload/models.py:20-29 | `{n}.{e}` is stored as `uploads/user-{id}/{n}_{stamp}.{e}` |
| FileUploads.CsvPathAccepted | fileupload/models.py:20-52 | a ".csv" name that `upload_to` accepts yields a path that passes the extension check of `save` |
| FileUploads.Truncate | fileupload/models.py:51-52 | the message fits 500 characters, a short one is kept, a long one becomes its first 497 characters and "..." |
| FileUploads.TruncateIdempotent | fileupload/models.py:51-52 | truncating twice is truncating once |
| FileUploads.FileUpload.constructor | fileupload/models.py:39-41 | a new upload is pending |
| FileUploads.FileUpload.Save | fileupload/models.py:45-53 | a wrong extension is refused with nothing changed; otherwise the message is truncated and a missing one stays missing |
| UploadSerializers.ToRepresentation | fileupload/serializers.py:10-15 | a base name without exactly one "." is refused |
| UploadSerializers.Shown | fileupload/serializers.py:12-15 | a base name is refused exactly when it does not hold one "." |
| UploadSerializers.ShownStem | fileupload/serializers.py:12-15 | a base name of one "." loses the last "_"-piece of its stem |
| UploadSerializers.DropStamp | fileupload/serializers.py:12-14 | dropping the last "_"-piece of `{n}_{stamp}` gives n |
| UploadSerializers.ShownStored | fileupload/serializers.py:10-15 | `{dir}/{n}_{stamp}.{e}` is shown as `{n}.{e}` |
| UploadSerializers.RoundTrip | fileupload/serializers.py:10-15 | a name of one "." and no "/" that `upload_to` stores is shown under its own name, "_" in the stem included |
| UploadSerializers.ShownNoUnderscore | fileupload/serializers.py:12-15 | a stem without "_" is shown as empty |
| UploadSerializers.NoUnderscoreExample | fileupload/serializers.py:10-15 | "abc.csv" is shown as ".csv" |
| UploadSerializers.ValidateFile | fileupload/serializers.py:30-36 | a file passes unchanged exactly when its name is empty or ends in ".csv" |
| UploadSerializers.ValidateAgreesWithSave | fileupload/serializers.py:30-36 | the serializer accepts exactly the names `FileUpload.save` accepts |
| Text.Split | fileupload/serializers.py:11 | one more piece than separators, none containing the separator |
| Text.JoinSplit | fileupload/serializers.py:14 | joining the pieces of a split gives the string back |
| Text.SplitConcat | fileupload/serializers.py:11 | splitting at a separator splits both sides independently |
| Calendar.NextDayOrdinal | goal/models.py:658 | the day after a date has the next ordinal |
| Calendar.PrevDayOrdinal | goal/models.py:605 | the day before a date has the previous ordinal |

## Left out

- Logging, `print`, `__str__`, `self.stdout.write`, the Celery tasks, the views and every serializer other than the two members modelled are not part of this model. They are I/O or are outside the core.
- `datetime.date.today()` and `datetime.now()` are parameters (`today`, `now`) rather than clock reads.
- `goal.progress`, which the refresh loops read, is not an attribute of `Goal` in the source: the loops would raise `AttributeError`. The model takes each goal's progress as a parameter; `Progress.GetProgress` is what it would evidently be.
- Decimal and float amounts are exact reals. Rounding to two decimal places is not modelled.
- `full_clean` is not modelled, and neither is the `max_length` of `description`, `category` and the other text columns, except the 20-character status values and the 500-character message.
- `create_goals` reads `goal.recurring_frequency`, which the model does not have: the field is spelled `reccuring_frequency`. The model uses the stored frequency.
- `_handle_case_1` to `_handle_case_4` (goal/models.py:232-428) are not modelled, and neither is the commented-out code of `add_new_range` (goal/models.py:505-552). No caller reaches them.
- Ledger.Db.AddNewRange: for a window whose start lies after its end and that meets some range, the contract does not say whether the call is refused; the gaps of such a window are not characterised.
- Ledger.Db.Reshape, Ledger.Db.FillWindow: as for AddNewRange, success is characterised only for a start on or before the end.
- Ledger.Db.SplitAll, Ledger.Db.SplitRange, Ledger.Db.Rebuild: the converse (pieces that fit give success) is stated only for a start on or before the end and ranges that meet the window, which is what `add_new_range` passes them.
- Ledger.Db.FillGaps, Ledger.Db.FillNext: the converse is stated only for gaps that meet no range of the user, which is what `find_gaps` returns.
- Ledger.Db.AddNewRange: a refused step rolls the whole call back. The source runs without a transaction, so it would keep the steps already done.
- Ledger.Db.AddNewRange: the returned list includes the left and right leftovers of the overlapping ranges, as the code does. Its docstring speaks only of the window.
- Spans.SortBy: `find_gaps` sorts its tuples (goal/models.py:162) by start and then end. The model sorts by start alone, which gives the same order because the spans are disjoint.
- GoalUtils.BuildSuccessor: the successor takes the default type SAVINGS, as `Goal.objects.create` leaves it. The second `new_goal.save()` is a save of an unchanged normalised goal and changes nothing (`Goals.Goal.Save`); it is not repeated.
- GoalUtils.CreateGoals: its contract states the goal table and the returned ids. It does not restate the ranges and contributions that `on_goal_create` changes; `GoalSignals.OnGoalCreate` states those for each goal.
- GoalUtils.UpdateStatus: the source's `goal.save()` re-runs `validate_completion_date`, which refuses every goal past due (see Findings). The model stores the evidently intended transition, and `GoalUtils.ResaveAsWritten` shows the written behaviour.
- Budgets.Budget.Save: only the insert of a new budget is modelled, not the update of a stored one.
- Foreign-key cascades on delete (users, categories, currencies, goals) are not modelled; only the PROTECT of contribution ranges is.
- `FileUpload.delete` (fileupload/models.py:55-60) removes the file from storage. That is I/O and is not modelled.
- FileUploads.FileUpload.Save: a message of `None` would make `len(self.message)` raise in the source. The model keeps `None` unchanged, which is evidently intended for a nullable column.
- FileUploads.Stamp: years are padded to four digits, which `strftime("%Y")` gives for years 1000 to 9999.
- Budgets.GetBudgetByCategory: the order of the summary entries is the iteration order of a Python set. The model promises one entry per name in some order.
- Budgets.SelectedBudgets: the subquery groups by category name as well as by the outer category. The model takes the latest budget per category row, which is the same on a table where category names are unique per user.
- The currency of a budget and the transaction fields that the summary and `contribution` do not read are omitted.

## Findings

| source | as written | input that shows it | evidently intended | confidence | as-written member | corrected member |
|---|---|---|---|---|---|---|
| goal/models.py:720-733 | re-saving a contribution adds its new percentage to the stored total, which still holds its own old percentage | the only contribution of a range, at 100 percent, saved again at 50 | only the other contributions plus the new percentage are checked against 100 | not executed | Ledger.ResaveCountsOwnShare | Ledger.Db.UpdateContribution |
| category/models.py:23-32 | the default guard looks for any stored default of the user and income flag, the category itself included | re-saving a stored default category, e.g. to change its description | the guard excludes the category being saved | not executed | Categories.ResaveDefaultRefused | Categories.CategoryTable.Save |
| goal/utils.py:31-35 | `goal.save()` re-runs `validate_completion_date`, which refuses an expected date before today, so a goal past due can never be completed or failed | a pending goal whose expected date was yesterday | the status change of a goal past due is stored | not executed | GoalUtils.ResaveAsWritten | GoalUtils.RefreshedAll |
