/** The goal repository and the update log: each operation reads the current year's buckets,
    changes the loaded lists, and writes them back whole.

    The current year, the fresh id, the clock and the outcome of every store access are
    parameters. */
module GoalService {
  import opened Wrappers
  import opened Records
  import opened Keys
  import opened Storage
  import Seqs

  /** `MAX_ACTIVE_GOALS`. */
  const MaxActiveGoals: nat := 150

  /** The text of the error each failure throws. */
  function ErrorMessage(e: ServiceError): string {
    match e
    case CapacityExceeded => "Maximum " + IntToString(MaxActiveGoals) + " active goals allowed per year"
    case NotFound => "Goal not found"
  }

  /** The cap is rendered into the message as "150". */
  lemma CapacityMessage()
    ensures ErrorMessage(CapacityExceeded) == "Maximum 150 active goals allowed per year"
  {
    RenderedCap();
  }

  lemma RenderedCap()
    ensures IntToString(MaxActiveGoals) == "150"
  {
    assert DigitChar(1) == '1' && DigitChar(5) == '5' && DigitChar(0) == '0';
    assert NatToString(1) == ['1'];
    assert NatToString(15) == ['1', '5'];
  }

  /** Which of the store accesses one operation makes fail. */
  datatype Faults = Faults(goalsRead: bool, updatesRead: bool, updatesWrite: bool, goalsWrite: bool)

  function IsActive(g: Goal): bool {
    g.status == Active
  }

  function IsAchieved(g: Goal): bool {
    g.status == Achieved
  }

  function HasId(goalId: string): Goal -> bool {
    (g: Goal) => g.id == goalId
  }

  function LacksId(goalId: string): Goal -> bool {
    (g: Goal) => g.id != goalId
  }

  function ForGoal(goalId: string): Update -> bool {
    (u: Update) => u.goalId == goalId
  }

  function TimestampOf(u: Update): int {
    u.timestamp
  }

  /** `goals.filter(g => g.status === 'active').length`. */
  function ActiveCount(goals: seq<Goal>): nat {
    |Seqs.Filter(goals, IsActive)|
  }

  // ---------------------------------------------------------------------------------------
  // createGoal

  /** `createGoal(goalData)`: refuses when the year already has `MaxActiveGoals` active goals,
      otherwise appends a new active goal with progress 0 and the defaults filled in. */
  method CreateGoal(store: Store, year: int, input: GoalInput, id: string, now: Timestamp, faults: Faults)
    returns (r: Result<Goal>)
    requires store.Valid()
    modifies store
    ensures store.Valid()
    ensures var loaded := old(store.GoalsForYear(year, faults.goalsRead));
      ActiveCount(loaded) >= MaxActiveGoals ==> r == Failure(CapacityExceeded) && unchanged(store)
    ensures var loaded := old(store.GoalsForYear(year, faults.goalsRead));
      ActiveCount(loaded) < MaxActiveGoals ==>
        && r.Success?
        && r.value.id == id
        && r.value.title == input.title
        && r.value.description == StringOr(input.description, "")
        && r.value.category == StringOr(input.category, "general")
        && r.value.targetDate == StringOrNull(input.targetDate)
        && r.value.status == Active
        && r.value.progress == 0
        && r.value.createdAt == now && r.value.updatedAt == now
        && r.value.achievedAt == None
        && r.value.year == year
        && store.writes == old(store.writes) + [StorageKey(GoalsKind, year)]
        && store.updateLists == old(store.updateLists)
        && store.goalLists == if faults.goalsWrite then old(store.goalLists)
                              else old(store.goalLists)[year := loaded + [r.value]]
  {
    var goals := store.GoalsForYear(year, faults.goalsRead);
    var activeGoals := Seqs.Filter(goals, IsActive);
    if |activeGoals| >= MaxActiveGoals {
      return Failure(CapacityExceeded);
    }
    var newGoal := Goal(
      id := id,
      title := input.title,
      description := StringOr(input.description, ""),
      category := StringOr(input.category, "general"),
      targetDate := StringOrNull(input.targetDate),
      status := Active,
      progress := 0,
      createdAt := now,
      updatedAt := now,
      achievedAt := None,
      year := year);
    goals := goals + [newGoal];
    var _ := store.SaveGoalsForYear(year, goals, faults.goalsWrite);
    return Success(newGoal);
  }

  /** Appending an active goal raises the active count by exactly one, so a creation the cap
      admits leaves at most `MaxActiveGoals` active goals; appending an achieved goal does not
      count against the cap. */
  lemma {:induction false} AppendedGoalCount(goals: seq<Goal>, g: Goal)
    ensures IsActive(g) ==> ActiveCount(goals + [g]) == ActiveCount(goals) + 1
    ensures IsAchieved(g) ==> ActiveCount(goals + [g]) == ActiveCount(goals)
    ensures IsActive(g) && ActiveCount(goals) < MaxActiveGoals ==> ActiveCount(goals + [g]) <= MaxActiveGoals
  {
    Seqs.FilterAppend(goals, [g], IsActive);
  }

  // ---------------------------------------------------------------------------------------
  // updateGoal

  function Pick<T>(override: Option<T>, current: T): T {
    if override.Some? then override.value else current
  }

  /** `{...goal, ...patch, updatedAt: now}`: every field the patch carries replaces the goal's,
      and `updatedAt` is always the new time. */
  function Merge(g: Goal, patch: GoalPatch, now: Timestamp): Goal {
    Goal(
      id := Pick(patch.id, g.id),
      title := Pick(patch.title, g.title),
      description := Pick(patch.description, g.description),
      category := Pick(patch.category, g.category),
      targetDate := Pick(patch.targetDate, g.targetDate),
      status := Pick(patch.status, g.status),
      progress := Pick(patch.progress, g.progress),
      createdAt := Pick(patch.createdAt, g.createdAt),
      updatedAt := now,
      achievedAt := Pick(patch.achievedAt, g.achievedAt),
      year := Pick(patch.year, g.year))
  }

  const EmptyPatch := GoalPatch(None, None, None, None, None, None, None, None, None, None, None)

  /** `{...p, ...q}`: the patch whose fields are `q`'s where `q` has them, else `p`'s. */
  function Combine(p: GoalPatch, q: GoalPatch): GoalPatch {
    GoalPatch(
      if q.id.Some? then q.id else p.id,
      if q.title.Some? then q.title else p.title,
      if q.description.Some? then q.description else p.description,
      if q.category.Some? then q.category else p.category,
      if q.targetDate.Some? then q.targetDate else p.targetDate,
      if q.status.Some? then q.status else p.status,
      if q.progress.Some? then q.progress else p.progress,
      if q.createdAt.Some? then q.createdAt else p.createdAt,
      if q.updatedAt.Some? then q.updatedAt else p.updatedAt,
      if q.achievedAt.Some? then q.achievedAt else p.achievedAt,
      if q.year.Some? then q.year else p.year)
  }

  /** The laws of a shallow merge: the empty patch only refreshes `updatedAt`, a timestamp in
      the patch never survives, applying a patch twice is applying it once, and two edits in a
      row equal one edit with the combined patch. */
  lemma MergeLaws(g: Goal, p: GoalPatch, q: GoalPatch, t1: Timestamp, t2: Timestamp)
    ensures Merge(g, EmptyPatch, t1) == g.(updatedAt := t1)
    ensures Merge(g, p, t1).updatedAt == t1
    ensures Merge(Merge(g, p, t1), p, t1) == Merge(g, p, t1)
    ensures Merge(Merge(g, p, t1), q, t2) == Merge(g, Combine(p, q), t2)
  {
  }

  /** A patch may set `status`: an edit can move an achieved goal back to active. */
  lemma EditCanReactivate(g: Goal, now: Timestamp)
    requires g.status == Achieved
    ensures Merge(g, EmptyPatch.(status := Some(Active)), now).status == Active
  {
  }

  /** `updateGoal(goalId, patch)`: merges the patch into the first goal with that id, or throws
      'Goal not found' without writing. */
  method UpdateGoal(store: Store, year: int, goalId: string, patch: GoalPatch, now: Timestamp, faults: Faults)
    returns (r: Result<Goal>)
    requires store.Valid()
    modifies store
    ensures store.Valid()
    ensures var loaded := old(store.GoalsForYear(year, faults.goalsRead));
      Seqs.FirstIndex(loaded, HasId(goalId)).None? ==> r == Failure(NotFound) && unchanged(store)
    ensures var loaded := old(store.GoalsForYear(year, faults.goalsRead));
      var found := Seqs.FirstIndex(loaded, HasId(goalId));
      found.Some? ==>
        && r == Success(Merge(loaded[found.value], patch, now))
        && store.writes == old(store.writes) + [StorageKey(GoalsKind, year)]
        && store.updateLists == old(store.updateLists)
        && store.goalLists == if faults.goalsWrite then old(store.goalLists)
                              else old(store.goalLists)[year := loaded[found.value := r.value]]
  {
    var goals := store.GoalsForYear(year, faults.goalsRead);
    var index := Seqs.FirstIndex(goals, HasId(goalId));
    if index.None? {
      return Failure(NotFound);
    }
    goals := goals[index.value := Merge(goals[index.value], patch, now)];
    var _ := store.SaveGoalsForYear(year, goals, faults.goalsWrite);
    return Success(goals[index.value]);
  }

  /** Only the first goal with the id is edited: every other entry, including later goals with
      the same id, and the length stay as they were. */
  lemma UpdateTouchesFirstMatchOnly(goals: seq<Goal>, goalId: string, patch: GoalPatch, now: Timestamp, j: nat)
    requires Seqs.FirstIndex(goals, HasId(goalId)).Some?
    requires j < |goals| && j != Seqs.FirstIndex(goals, HasId(goalId)).value
    ensures var i := Seqs.FirstIndex(goals, HasId(goalId)).value;
      var edited := goals[i := Merge(goals[i], patch, now)];
      |edited| == |goals| && edited[j] == goals[j] && edited[i].updatedAt == now
    ensures j < Seqs.FirstIndex(goals, HasId(goalId)).value ==> goals[j].id != goalId
  {
  }

  // ---------------------------------------------------------------------------------------
  // deleteGoal, getActiveGoals, getAllGoals

  /** `goals.filter(g => g.id !== goalId)`. */
  function WithoutGoal(goals: seq<Goal>, goalId: string): seq<Goal> {
    Seqs.Filter(goals, LacksId(goalId))
  }

  /** `deleteGoal(goalId)`: writes back the year's goals without that id and reports `true`;
      the update log is left alone, so the goal's updates stay in it. */
  method DeleteGoal(store: Store, year: int, goalId: string, faults: Faults) returns (ok: bool)
    requires store.Valid()
    modifies store
    ensures store.Valid()
    ensures ok
    ensures store.writes == old(store.writes) + [StorageKey(GoalsKind, year)]
    ensures store.updateLists == old(store.updateLists)
    ensures store.goalLists == if faults.goalsWrite then old(store.goalLists)
      else old(store.goalLists)[year := WithoutGoal(old(store.GoalsForYear(year, faults.goalsRead)), goalId)]
  {
    var goals := store.GoalsForYear(year, faults.goalsRead);
    var filteredGoals := WithoutGoal(goals, goalId);
    var _ := store.SaveGoalsForYear(year, filteredGoals, faults.goalsWrite);
    return true;
  }

  /** Deleting removes every goal with the id and keeps every other goal, in order; it is a
      no-op when no goal has the id, and deleting twice is deleting once. */
  lemma {:induction false} DeleteLaws(goals: seq<Goal>, goalId: string, others: seq<Goal>)
    ensures forall g :: g in WithoutGoal(goals, goalId) ==> g.id != goalId && g in goals
    ensures forall g :: g in goals && g.id != goalId ==> g in WithoutGoal(goals, goalId)
    ensures WithoutGoal(goals + others, goalId) == WithoutGoal(goals, goalId) + WithoutGoal(others, goalId)
    ensures (forall g :: g in goals ==> g.id != goalId) ==> WithoutGoal(goals, goalId) == goals
    ensures WithoutGoal(WithoutGoal(goals, goalId), goalId) == WithoutGoal(goals, goalId)
  {
    var kept := WithoutGoal(goals, goalId);
    forall g | g in kept ensures g.id != goalId && g in goals {
      var i :| 0 <= i < |kept| && kept[i] == g;
    }
    forall g | g in goals && g.id != goalId ensures g in kept {
      var i :| 0 <= i < |goals| && goals[i] == g;
    }
    Seqs.FilterAppend(goals, others, LacksId(goalId));
    if forall g :: g in goals ==> g.id != goalId {
      Seqs.FilterKeepsAll(goals, LacksId(goalId));
    }
    Seqs.FilterIdempotent(goals, LacksId(goalId));
  }

  /** `getActiveGoals()`: the current year's active goals, in stored order. */
  function GetActiveGoals(store: Store, year: int, fails: bool): (r: seq<Goal>)
    reads store
    ensures forall i :: 0 <= i < |r| ==> r[i].status == Active && r[i] in store.GoalsForYear(year, fails)
    ensures forall g :: g in store.GoalsForYear(year, fails) && g.status == Active ==> g in r
    ensures forall g :: multiset(r)[g] == if g.status == Active then multiset(store.GoalsForYear(year, fails))[g] else 0
    ensures |r| == ActiveCount(store.GoalsForYear(year, fails))
  {
    ActiveMultiplicity(store.GoalsForYear(year, fails));
    Seqs.Filter(store.GoalsForYear(year, fails), IsActive)
  }

  lemma ActiveMultiplicity(goals: seq<Goal>)
    ensures forall g :: multiset(Seqs.Filter(goals, IsActive))[g] == if g.status == Active then multiset(goals)[g] else 0
  {
    forall g ensures multiset(Seqs.Filter(goals, IsActive))[g] == if g.status == Active then multiset(goals)[g] else 0 {
      Seqs.FilterMultiplicity(goals, IsActive, g);
    }
  }

  /** The active goals keep their stored order: those of a concatenation are those of each part
      in turn, and a single goal is listed exactly when it is active. */
  lemma ActiveGoalsKeepOrder(a: seq<Goal>, b: seq<Goal>, g: Goal)
    ensures Seqs.Filter(a + b, IsActive) == Seqs.Filter(a, IsActive) + Seqs.Filter(b, IsActive)
    ensures Seqs.Filter([g], IsActive) == if g.status == Active then [g] else []
  {
    Seqs.FilterAppend(a, b, IsActive);
    Seqs.FilterSingle(g, IsActive);
  }

  /** `year || getCurrentYear()`: a missing year, or year 0, means the current year. */
  function TargetYear(year: Option<int>, currentYear: int): (y: int)
    ensures year.Some? && year.value != 0 ==> y == year.value
    ensures year.None? || year.value == 0 ==> y == currentYear
  {
    NumberOr(year, currentYear)
  }

  /** `getAllGoals(year)`: the goals of the given year, or of the current year when none is given. */
  function GetAllGoals(store: Store, year: Option<int>, currentYear: int, fails: bool): (r: seq<Goal>)
    reads store
    ensures year.Some? && year.value != 0 ==> r == store.GoalsForYear(year.value, fails)
    ensures year.None? || year.value == 0 ==> r == store.GoalsForYear(currentYear, fails)
  {
    store.GoalsForYear(TargetYear(year, currentYear), fails)
  }

  /** `getAllUpdates(year)`: the update log of the given year, or of the current year. */
  function GetAllUpdates(store: Store, year: Option<int>, currentYear: int, fails: bool): (r: seq<Update>)
    reads store
    ensures year.Some? && year.value != 0 ==> r == store.UpdatesForYear(year.value, fails)
    ensures year.None? || year.value == 0 ==> r == store.UpdatesForYear(currentYear, fails)
  {
    store.UpdatesForYear(TargetYear(year, currentYear), fails)
  }

  // ---------------------------------------------------------------------------------------
  // logUpdate, getGoalUpdates

  /** `Math.min(100, Math.max(0, p))`. */
  function Clamp(p: int): (c: int)
    ensures 0 <= c <= 100
    ensures 0 <= p <= 100 ==> c == p
    ensures p < 0 ==> c == 0
    ensures p > 100 ==> c == 100
  {
    var atLeastZero := if 0 < p then p else 0;
    if 100 < atLeastZero then 100 else atLeastZero
  }

  /** The progress `logUpdate` gives the goal: `Math.min(100, Math.max(0, supplied || current))`. */
  function NewProgress(supplied: Option<int>, current: int): int {
    Clamp(NumberOr(supplied, current))
  }

  /** The goal after `logUpdate` set its progress to `p` at time `now`: `active` turns into
      `achieved`, stamped with `now`, once `p` reaches 100. */
  function Progressed(g: Goal, p: int, now: Timestamp): Goal {
    var g1 := g.(progress := p);
    var g2 := if p >= 100 && g1.status == Active then g1.(status := Achieved, achievedAt := Some(now)) else g1;
    g2.(updatedAt := now)
  }

  /** What logging progress does to a goal: progress lands in [0, 100]; a supplied 0 or no value
      keeps the current progress; the goal becomes achieved exactly when it was achieved already
      or an active goal reaches 100, and only that transition stamps `achievedAt`; nothing else
      about the goal changes. An achieved goal stays achieved even when its progress drops. */
  lemma ProgressTransition(g: Goal, supplied: Option<int>, now: Timestamp)
    ensures var p := NewProgress(supplied, g.progress);
      var r := Progressed(g, p, now);
      && 0 <= r.progress <= 100
      && (supplied.Some? && supplied.value != 0 ==> r.progress == Clamp(supplied.value))
      && (0 <= g.progress <= 100 && (supplied.None? || supplied.value == 0) ==> r.progress == g.progress)
      && (r.status == Achieved <==> g.status == Achieved || r.progress >= 100)
      && (r.achievedAt == if g.status == Active && r.progress >= 100 then Some(now) else g.achievedAt)
      && r.updatedAt == now
      && r == g.(progress := r.progress, status := r.status, achievedAt := r.achievedAt, updatedAt := now)
  {
  }

  /** The record appended to the log: the goal's current title, the note or '', and the supplied
      progress as given (`progress || 0`, not clamped). */
  function NewUpdate(id: string, goalId: string, goal: Goal, input: UpdateInput, now: Timestamp): Update {
    Update(
      id := id,
      goalId := goalId,
      goalTitle := goal.title,
      note := StringOr(input.note, ""),
      progress := NumberOr(input.progress, 0),
      timestamp := now)
  }

  /** The recorded progress is what the caller supplied (or 0), never clamped, even where the
      goal's progress is clamped or kept: a supplied 0 is recorded as 0 while the goal keeps its
      (clamped) progress, and a value above 100 is recorded as given while the goal gets 100. */
  lemma RecordedProgressIsUnclamped(id: string, goal: Goal, input: UpdateInput, now: Timestamp)
    ensures NewUpdate(id, goal.id, goal, input, now).progress == (if input.progress.Some? then input.progress.value else 0)
    ensures input.progress == Some(0) ==>
      NewUpdate(id, goal.id, goal, input, now).progress == 0 && NewProgress(input.progress, goal.progress) == Clamp(goal.progress)
    ensures input.progress.Some? && input.progress.value > 100 ==>
      NewUpdate(id, goal.id, goal, input, now).progress == input.progress.value > NewProgress(input.progress, goal.progress) == 100
  {
  }

  datatype Logged = Logged(update: Update, goal: Goal)

  /** `logUpdate(goalId, updateData)`: throws 'Goal not found' without writing; otherwise appends
      one update record, sets the goal's progress (achieving it at 100), and writes the update
      log first and the goals second. */
  method LogUpdate(store: Store, year: int, goalId: string, input: UpdateInput, id: string,
                   now: Timestamp, faults: Faults)
    returns (r: Result<Logged>)
    requires store.Valid()
    modifies store
    ensures store.Valid()
    ensures var goals := old(store.GoalsForYear(year, faults.goalsRead));
      Seqs.FirstIndex(goals, HasId(goalId)).None? ==> r == Failure(NotFound) && unchanged(store)
    ensures var goals := old(store.GoalsForYear(year, faults.goalsRead));
      var updates := old(store.UpdatesForYear(year, faults.updatesRead));
      var found := Seqs.FirstIndex(goals, HasId(goalId));
      found.Some? ==>
        var goal := goals[found.value];
        && r.Success?
        && r.value.update == NewUpdate(id, goalId, goal, input, now)
        && r.value.goal == Progressed(goal, NewProgress(input.progress, goal.progress), now)
        && store.writes == old(store.writes) + [StorageKey(UpdatesKind, year), StorageKey(GoalsKind, year)]
        && store.updateLists == (if faults.updatesWrite then old(store.updateLists)
                                 else old(store.updateLists)[year := updates + [r.value.update]])
        && store.goalLists == (if faults.goalsWrite then old(store.goalLists)
                               else old(store.goalLists)[year := goals[found.value := r.value.goal]])
  {
    var goals := store.GoalsForYear(year, faults.goalsRead);
    var updates := store.UpdatesForYear(year, faults.updatesRead);
    ghost var loaded := goals;

    var found := Seqs.FirstIndex(goals, HasId(goalId));
    if found.None? {
      return Failure(NotFound);
    }
    var goal := goals[found.value];

    var newUpdate := NewUpdate(id, goalId, goal, input, now);
    updates := updates + [newUpdate];

    // `findIndex` with the predicate `find` used: it finds the same goal
    var goalIndex := Seqs.FirstIndex(goals, HasId(goalId));
    if goalIndex.Some? {
      var i := goalIndex.value;
      var newProgress := Clamp(NumberOr(input.progress, goal.progress));
      goals := goals[i := goals[i].(progress := newProgress)];
      if newProgress >= 100 && goals[i].status == Active {
        goals := goals[i := goals[i].(status := Achieved)];
        goals := goals[i := goals[i].(achievedAt := Some(now))];
      }
      goals := goals[i := goals[i].(updatedAt := now)];
      assert goals == loaded[i := Progressed(goal, NewProgress(input.progress, goal.progress), now)];
    }

    var _ := store.SaveUpdatesForYear(year, updates, faults.updatesWrite);
    var _ := store.SaveGoalsForYear(year, goals, faults.goalsWrite);
    return Success(Logged(newUpdate, goals[goalIndex.value]));
  }

  /** `getGoalUpdates(goalId)`: the updates logged for that goal, newest first. */
  function GetGoalUpdates(store: Store, year: int, goalId: string, fails: bool): (r: seq<Update>)
    reads store
    ensures forall i :: 0 <= i < |r| ==> r[i].goalId == goalId
    ensures multiset(r) == multiset(Seqs.Filter(store.UpdatesForYear(year, fails), ForGoal(goalId)))
    ensures forall i, j :: 0 <= i < j < |r| ==> r[i].timestamp >= r[j].timestamp
  {
    var mine := Seqs.Filter(store.UpdatesForYear(year, fails), ForGoal(goalId));
    var sorted := Seqs.SortDesc(mine, TimestampOf);
    NewestFirst(mine, sorted, goalId);
    sorted
  }

  /** Updates of the goal logged at the same instant are listed in the order they were logged, as
      the stable sort keeps them. */
  lemma SameInstantInLogOrder(store: Store, year: int, goalId: string, fails: bool, t: int)
    ensures Seqs.Filter(GetGoalUpdates(store, year, goalId, fails), Seqs.HasKey(TimestampOf, t))
         == Seqs.Filter(Seqs.Filter(store.UpdatesForYear(year, fails), ForGoal(goalId)), Seqs.HasKey(TimestampOf, t))
  {
    Seqs.SortDescStable(Seqs.Filter(store.UpdatesForYear(year, fails), ForGoal(goalId)), TimestampOf, t);
  }

  lemma NewestFirst(mine: seq<Update>, sorted: seq<Update>, goalId: string)
    requires forall i :: 0 <= i < |mine| ==> ForGoal(goalId)(mine[i])
    requires multiset(sorted) == multiset(mine)
    requires Seqs.SortedDesc(sorted, TimestampOf)
    ensures forall i :: 0 <= i < |sorted| ==> sorted[i].goalId == goalId
    ensures forall i, j :: 0 <= i < j < |sorted| ==> sorted[i].timestamp >= sorted[j].timestamp
  {
    forall i | 0 <= i < |sorted| ensures sorted[i].goalId == goalId {
      assert sorted[i] in multiset(mine);
      var k :| 0 <= k < |mine| && mine[k] == sorted[i];
      assert ForGoal(goalId)(mine[k]);
    }
    forall i, j | 0 <= i < j < |sorted| ensures sorted[i].timestamp >= sorted[j].timestamp {
      assert TimestampOf(sorted[i]) >= TimestampOf(sorted[j]);
    }
  }
}
