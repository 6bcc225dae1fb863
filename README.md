# Yearly goals: the data layer

This project models the data layer of a goal-tracking app. It has four parts.

**Per-year key-value store.** Goals and progress updates are kept as whole lists in buckets named `goals_<year>` and `updates_<year>`.
- Reading a missing bucket gives the empty list, and a write replaces the whole bucket.
- Store failures are absorbed: a failed read gives `[]` and a failed write reports `false`.
- `getAllYears` lists the keys, keeps those starting with `goals_`, parses the year after the underscore and sorts newest first.

**Goal repository and update log.** Each operation that changes data loads the current year's bucket, changes the list and writes it back whole. The readers (`getActiveGoals`, `getAllGoals`, `getAllUpdates`, `getGoalUpdates`, `generateYearReport`) write nothing.
- `createGoal`: caps a year at 150 active goals.
- `updateGoal`: shallow-merges a patch into the first goal with the id.
- `deleteGoal`: filters the goal out and keeps its updates.
- `logUpdate`:
  - appends an update record;
  - sets the goal's progress to `min(100, max(0, supplied || current))`;
  - turns an active goal into an achieved one at 100;
  - writes the update log before the goals.
- `getGoalUpdates`: lists a goal's updates, newest first.
- `generateYearReport`: counts goals by status, rounds the mean progress and counts updates per calendar month.

**Milestones and encouragement messages.** `checkMilestone` detects a threshold of 25, 50, 75 or 90 crossed by a step. `getEncouragementMessage` picks a message by band, or at random from a list.

**Categories.** A fixed table, and a lookup by id that falls back to the last entry, "general".

How the model is built:
- **The store** is the class `Storage.Store`. It holds one map per kind, from year to stored list. `Keys.KeyNameInjective` shows that distinct buckets have distinct key names, which is why separate maps are a faithful picture of the single key-value store.
- **The write log.** A ghost field `writes` records every write attempted, in order. It states the order of the two writes in `logUpdate`. It also shows that a bucket never written reads as empty.
- **Service operations** are module-level members that take the store as a parameter: the writers are methods, and the readers are functions (the report is a method with a loop that changes nothing). As needed, they also take:
  - the current year;
  - the fresh id;
  - the clock reading `now`;
  - a `Faults` record saying which store accesses fail.
- **Report months.** The calendar month of an instant is the parameter `monthOf`.
- **Random choice.** The value `Math.random()` returned is the parameter `random`, in [0, 1).
- **Falsy values.** JavaScript's `a || b` is modelled with its falsy cases:
  - `Records.StringOr`: the empty string;
  - `Records.NumberOr`: zero;
  - `Records.StringOrNull`: `|| null`.

Behaviour of the code worth knowing, which the model keeps as written:
- **Falsy values.** `||` treats an absent value, `0` and `''` alike. So a supplied progress of 0 leaves the goal's progress as it was, while the update record stores 0.
- **Milestone result.** `checkMilestone` returns the new progress value itself. The threshold crossed, `Encouragement.FirstCrossed`, is used only for its truthiness.
- **Listed years.** `getAllYears` lists every year that has a `goals_` key, including a year whose goals bucket was saved as `[]`.
- **Progress and status are not kept in step:**
  - `updateGoal` may set any field, `status` included (`GoalService.EditCanReactivate`);
  - `logUpdate` may lower an achieved goal's progress while it stays achieved (`GoalService.ProgressTransition`).

## Model

| member | source | states |
|---|---|---|
| Storage.Store.GoalsForYear | src/services/storage.js:13-21 | the stored goals of a year; `[]` when the bucket is missing or the read fails |
| Storage.Store.UpdatesForYear | src/services/storage.js:33-41 | the stored updates of a year; `[]` when the bucket is missing or the read fails |
| Storage.Store.SaveGoalsForYear | src/services/storage.js:23-31 | reports `true` exactly when the write succeeds; then it replaces the year's goals bucket whole, and a read of it returns the list written; every other year's goals and every updates bucket are unchanged; a failed write changes nothing; the attempted write is appended to the write log |
| Storage.Store.SaveUpdatesForYear | src/services/storage.js:43-51 | the same for the updates bucket: replaced whole on success, every goals bucket and other year unchanged, `false` and no change on failure |
| Storage.Store.UnwrittenBucketIsEmpty | src/services/storage.js:15-16 | a bucket no write was ever attempted on reads as `[]` |
| Storage.Store.AllKeys | src/services/storage.js:55 | every key name of the store exactly once |
| Storage.Store.AllYears | src/services/storage.js:53-62 | `[]` when listing fails; otherwise a year is listed iff the store has a goals bucket for it (an empty one included, years with only updates excluded), in strictly descending order |
| Storage.Store.KeyNamesAreWellFormed | src/services/storage.js:55-57 | every key that passes the `goals_` filter is the key of a goals bucket and parses to a year |
| Storage.Store.YearsFromStoreKeys | src/services/storage.js:55-57 | the filter-parse-sort pipeline over a listing of the store's keys yields exactly the goals years, each once, strictly descending |
| Storage.YearsFromKeys | src/services/storage.js:56-57 | the parsed years of the `goals_` keys, sorted descending, as a permutation |
| Storage.StrictlyDescending | src/services/storage.js:57 | a descending list without repeats is strictly descending |
| Keys.KeyNameInjective | src/services/storage.js:3-7 | two buckets with the same key name are the same kind and year |
| Keys.SplitKeyName | src/services/storage.js:57 | `split('_')` on a key gives exactly the kind name and the rendered year |
| Keys.IntRoundTrip | src/services/storage.js:57 | `parseInt` of the decimal rendering of any integer is that integer |
| Keys.YearOfKeyName | src/services/storage.js:57 | key round trip: the year parsed back from the key of `(kind, y)` is `y` |
| Keys.GoalsPrefixOfKeyName | src/services/storage.js:56 | a key starts with `goals_` iff it is a goals key |
| Keys.Split | src/services/storage.js:57 | `split('_')` always yields at least one field |
| GoalService.CreateGoal | src/services/goalService.js:5-30 | with 150 or more active goals: a capacity failure and no write; otherwise the new goal has the given id and title, `''`/`'general'`/`null` defaults, status active, progress 0, `now` timestamps, the current year; it is appended after the unchanged loaded goals, one goals write and no updates write |
| GoalService.AppendedGoalCount | src/services/goalService.js:9-12 | appending an active goal raises the active count by one, an achieved goal leaves it; an admitted creation leaves at most 150 active goals |
| GoalService.CapacityMessage | src/services/goalService.js:11 | the capacity error reads "Maximum 150 active goals allowed per year" |
| GoalService.UpdateGoal | src/services/goalService.js:32-49 | unknown id: not-found and no write; otherwise exactly the first goal with the id is replaced by the merge of the patch at `now`, every other entry and the length unchanged, one goals write |
| GoalService.UpdateTouchesFirstMatchOnly | src/services/goalService.js:36-45 | entries other than the first match, including later goals with the same id, keep their value; entries before it do not carry the id |
| GoalService.MergeLaws | src/services/goalService.js:41-45 | the empty patch only refreshes `updatedAt`; a patched `updatedAt` never survives; merging a patch twice is merging once; two merges equal one merge of the combined patch |
| GoalService.EditCanReactivate | src/services/goalService.js:41-45 | a patch can turn an achieved goal back to active |
| GoalService.DeleteGoal | src/services/goalService.js:51-58 | always reports `true`; writes the year's goals without that id; leaves the update log untouched |
| GoalService.DeleteLaws | src/services/goalService.js:55 | every goal with the id is removed, every other one kept in order; no-op for an absent id; idempotent; distributes over concatenation |
| GoalService.GetActiveGoals | src/services/goalService.js:60-64 | exactly the year's active goals: each active goal as often as it is stored, no other goal, as many as the active count |
| GoalService.ActiveGoalsKeepOrder | src/services/goalService.js:63 | the active goals keep their stored order: the filter distributes over concatenation and keeps a single goal exactly when it is active |
| GoalService.TargetYear | src/services/goalService.js:67 | a given non-zero year is used; a missing year or 0 means the current year |
| GoalService.GetAllGoals | src/services/goalService.js:66-69 | the goals bucket of the given year, or of the current year when the year is missing or 0 |
| GoalService.GetAllUpdates | src/services/goalService.js:121-124 | the updates bucket of the given year, or of the current year when the year is missing or 0 |
| GoalService.Clamp | src/services/goalService.js:95 | the result lies in [0, 100], equals the input inside it and the nearer bound outside |
| GoalService.ProgressTransition | src/services/goalService.js:93-105 | new progress in [0, 100]; a non-zero supplied value is clamped in, 0 or none keeps the current progress; achieved iff already achieved or progress reaches 100 (never back to active); `achievedAt` stamped only on that transition; `updatedAt` is `now`; no other field changes |
| GoalService.RecordedProgressIsUnclamped | src/services/goalService.js:86-95 | the record holds the supplied progress, or 0, never clamped; a supplied 0 is recorded as 0 while the goal keeps its (clamped) progress; a value above 100 is recorded as given while the goal gets 100 |
| GoalService.LogUpdate | src/services/goalService.js:71-111 | unknown id: not-found and no write; otherwise one update is appended with the goal's id, its current title, the note or `''` and the supplied progress or 0; only the first goal with the id is replaced by its progressed form; the updates bucket is written before the goals bucket |
| GoalService.GetGoalUpdates | src/services/goalService.js:113-119 | a permutation of the year's updates carrying that goal id, newest first |
| GoalService.SameInstantInLogOrder | src/services/goalService.js:116-118 | the goal's updates that share a timestamp are listed in the order they were logged |
| GoalService.NewestFirst | src/services/goalService.js:116-118 | a descending sort of the goal's updates keeps only that goal's updates and orders them by timestamp, newest first |
| Report.GenerateYearReport | src/services/goalService.js:126-162 | the year; total, active and achieved counts; the rounded mean progress; the update count; the per-month histogram; one summary per goal in stored order |
| Report.RoundedMean | src/services/goalService.js:133-150 | 0 for no goals; otherwise the integer nearest the mean, halves rounded up (`Math.round`) |
| Report.AverageInRange | src/services/goalService.js:133-150 | when every progress is in [0, 100], so is the reported average |
| Report.UniformAverage | src/services/goalService.js:133-150 | goals all at progress `p` average exactly `p` |
| Report.SumProgressBounds | src/services/goalService.js:134 | the sum of percentages lies between 0 and 100 times the count |
| Report.MeanOfMultiple | src/services/goalService.js:150 | the rounded mean of `p * n` over `n` is `p` |
| Report.StatusCountsPartition | src/services/goalService.js:130-132 | active count plus achieved count is the total count |
| Report.HistogramCounts | src/services/goalService.js:140-143 | each month's count is the number of updates that fall in that month |
| Report.HistogramEntriesPositive | src/services/goalService.js:140-143 | a month has an entry iff its count is positive |
| Report.HistogramKeys | src/services/goalService.js:140-143 | a month has an entry iff some update falls in it |
| Report.TotalBump | src/services/goalService.js:142 | counting one more update in a month raises the sum over that month's range by one |
| Report.HistogramTotal | src/services/goalService.js:137-143 | all keys are months 0-11 and the counts add up to the number of updates |
| Report.EmptyYear | src/services/goalService.js:126-150 | for a year whose buckets were never written, the quantities the report is built from are no goals, zero counts, average 0, no updates and an empty histogram |
| Records.StringOr | src/services/goalService.js:17-18 | a present non-empty string is kept; absent or `''` gives the fallback |
| Records.NumberOr | src/services/goalService.js:86 | a present non-zero number is kept; absent or 0 gives the fallback |
| Records.StringOrNull | src/services/goalService.js:19 | a present non-empty string is kept; an absent one or `''` gives `null` |
| Encouragement.RandomIndex | src/utils/encouragement.js:32-34 | `Math.floor(random * n)` is a valid index for a non-empty list |
| Encouragement.EncouragementMessage | src/utils/encouragement.js:30-52 | achievement: some achievement message; milestone: the message of the band at 90, 75, 50, 25; below 25 or any other kind: some progress message |
| Encouragement.MilestoneMessageNamesLargestReached | src/utils/encouragement.js:37-46 | the milestone message is the one for the largest threshold the progress has reached |
| Encouragement.FirstCrossed | src/utils/encouragement.js:56 | the lowest threshold with old < m <= new, and none exactly when no threshold is crossed |
| Encouragement.CheckMilestone | src/utils/encouragement.js:54-58 | present iff some threshold m has old < m <= new; when present it is `new` itself, at least 25 |
| Encouragement.NoMilestoneWithoutGain | src/utils/encouragement.js:56 | no gain (new <= old) reports no milestone |
| Encouragement.CrossingSeveralReportsLowest | src/utils/encouragement.js:54-58 | 40 to 80 crosses 50 first and reports 80; 20 to 30 crosses 25 and reports 30; 80 to 80 reports nothing |
| Categories.CategoryById | src/constants/categories.js:13-15 | always a table entry; the entry with the id when there is one, otherwise the last entry, "general" |
| Categories.IdsDistinct | src/constants/categories.js:1-11 | no two table entries share an id |
| Categories.LookupOfListedId | src/constants/categories.js:13-15 | looking up a listed id returns that very entry |
| Categories.GeneralIsFallback | src/constants/categories.js:10-14 | "general" and any unknown id resolve to the same entry |
| Seqs.Filter | src/services/goalService.js:55 | `Array.filter`: every kept element satisfies the predicate and comes from the input, every input element that satisfies it is kept, and the result is a sub-multiset of the input |
| Seqs.FilterMultiplicity | src/services/goalService.js:55 | a value satisfying the predicate is kept as often as it occurs; any other value not at all |
| Seqs.FilterAppend | src/services/goalService.js:55 | filtering distributes over concatenation |
| Seqs.FilterSingle | src/services/goalService.js:55 | a one-element sequence is kept exactly when its element satisfies the predicate; with `FilterAppend` this fixes the order of the result |
| Seqs.FirstIndex | src/services/goalService.js:36 | `Array.findIndex`: the first index where the predicate holds, or none when it holds nowhere |
| Seqs.SortDesc | src/services/goalService.js:116-118 | a permutation of the input, sorted by key in descending order |
| Seqs.SortDescStable | src/services/goalService.js:116-118 | the sort is stable: the elements sharing any key keep their input order |

## Left out

- The screens, navigation and components, and the colour table: they are user interface with no data-layer behaviour.
- JSON serialisation and the device store's own behaviour: a stored list is kept as a value; a failed write is taken to change nothing.
- Asynchrony and concurrent writers: every operation runs as one sequential step.
- `console.error` logging on a failure.
- `getCurrentYear`, `Date.now()` ids and `new Date()`: the year, the id and `now` are parameters. One `now` serves every clock read of a call. ISO-8601 formatting is not modelled; timestamps are instants.
- `new Date(t).getMonth()` is the parameter `monthOf`; its range 0..11 is assumed only where the histogram total is stated.
- `Math.random()` is the parameter `random`.
- Fresh ids: `Date.now()` ids may collide, and nothing here assumes they are unique.
- Floating-point progress: progress values are integers, and the mean is rounded in exact integer arithmetic.
- Patch properties that are not goal fields, and status strings other than `active` and `achieved`: a patch is limited to the goal's own fields and the two statuses.
- The `settings` key: no operation reads or writes it.
- Keys.IntToString: years and progress are JavaScript numbers, modelled as unbounded integers; the decimal rendering agrees with JavaScript only for magnitudes below 10^21, where JavaScript switches to exponent form (`1e+21`, which `parseInt` reads back as 1). The app takes years from `getFullYear()`, which stays far inside that range, so the key round trip holds for every year it can produce.
- Encouragement.EncouragementMessage: the default `progress = 0` of `getEncouragementMessage` is not modelled; a caller that omits the progress passes 0, with the same result.
- Keys.ParseInt: models base-ten `parseInt` on the characters key names can contain; hexadecimal prefixes and the full JavaScript white-space set are not modelled.
- Report.GenerateYearReport: the report carries the instants of `createdAt` and `achievedAt`, not their ISO strings.
