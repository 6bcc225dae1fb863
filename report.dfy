/** The year report: goal counts by status, the rounded mean progress, the number of updates
    logged in each calendar month, and a summary of every goal. */
module Report {
  import opened Wrappers
  import opened Records
  import opened Keys
  import opened Storage
  import opened GoalService
  import Seqs

  /** The fields of a goal the report lists. */
  datatype GoalSummary = GoalSummary(
    id: string,
    title: string,
    status: Status,
    progress: int,
    createdAt: Timestamp,
    achievedAt: Option<Timestamp>)

  datatype YearReport = YearReport(
    year: int,
    totalGoals: nat,
    activeGoals: nat,
    achievedGoals: nat,
    averageProgress: int,
    totalUpdates: nat,
    updatesByMonth: map<int, nat>,
    goals: seq<GoalSummary>)

  function Summary(g: Goal): GoalSummary {
    GoalSummary(g.id, g.title, g.status, g.progress, g.createdAt, g.achievedAt)
  }

  /** `goals.reduce((sum, g) => sum + g.progress, 0)`. */
  function SumProgress(goals: seq<Goal>): int {
    if goals == [] then 0 else SumProgress(goals[..|goals| - 1]) + goals[|goals| - 1].progress
  }

  /** `Math.round(sum / n)`, or 0 when there is nothing to average: the integer nearest the mean,
      halves rounded up. */
  function RoundedMean(sum: int, n: nat): (r: int)
    ensures n == 0 ==> r == 0
    ensures n > 0 ==> 2 * n * r - n <= 2 * sum < 2 * n * r + n
  {
    if n == 0 then 0 else (2 * sum + n) / (2 * n)
  }

  lemma {:induction false} SumProgressBounds(goals: seq<Goal>)
    requires forall i :: 0 <= i < |goals| ==> 0 <= goals[i].progress <= 100
    ensures 0 <= SumProgress(goals) <= 100 * |goals|
  {
    if goals != [] {
      SumProgressBounds(goals[..|goals| - 1]);
    }
  }

  /** When every goal's progress is a percentage, so is the reported average. */
  lemma AverageInRange(goals: seq<Goal>)
    requires forall i :: 0 <= i < |goals| ==> 0 <= goals[i].progress <= 100
    ensures 0 <= RoundedMean(SumProgress(goals), |goals|) <= 100
  {
    SumProgressBounds(goals);
    if goals != [] {
      MeanOfPercentages(SumProgress(goals), |goals|);
    }
  }

  lemma MeanOfPercentages(sum: int, n: nat)
    requires n > 0 && 0 <= sum <= 100 * n
    ensures 0 <= RoundedMean(sum, n) <= 100
  {
    var r := RoundedMean(sum, n);
    assert n * (2 * r - 201) == 2 * n * r - 201 * n;
    assert n * (2 * r + 1) == 2 * n * r + n;
    MulBound(n, 2 * r - 201);
    MulBound(n, 2 * r + 1);
  }

  /** Goals all at the same progress average to that progress. */
  lemma {:induction false} UniformAverage(goals: seq<Goal>, p: int)
    requires forall i :: 0 <= i < |goals| ==> goals[i].progress == p
    ensures SumProgress(goals) == p * |goals|
    ensures goals != [] ==> RoundedMean(SumProgress(goals), |goals|) == p
  {
    if goals != [] {
      UniformAverage(goals[..|goals| - 1], p);
      MeanOfMultiple(p, |goals|);
    }
  }

  lemma MeanOfMultiple(p: int, n: nat)
    requires n > 0
    ensures RoundedMean(p * n, n) == p
  {
    var r := RoundedMean(p * n, n);
    var k := r - p;
    assert 2 * n * r == 2 * (p * n) + 2 * n * k;
    MulBound(2 * n, k);
  }

  lemma MulBound(b: int, k: int)
    requires b > 0
    ensures k >= 1 ==> b * k >= b
    ensures k <= -1 ==> b * k <= -b
  {
    if k >= 1 {
      assert b * k == b + b * (k - 1);
    } else if k <= -1 {
      assert b * k == -b + b * (k + 1);
    }
  }

  /** The number recorded for a month, `0` when the month has no entry. */
  function Count(h: map<int, nat>, month: int): nat {
    if month in h then h[month] else 0
  }

  /** `h[month] = (h[month] || 0) + 1`. */
  function Bump(h: map<int, nat>, month: int): map<int, nat> {
    h[month := Count(h, month) + 1]
  }

  /** The histogram `updates.forEach` builds: one entry per month that has an update, holding
      how many updates fall in it; `monthOf` is `new Date(t).getMonth()`. */
  function MonthHistogram(updates: seq<Update>, monthOf: Timestamp -> int): map<int, nat> {
    if updates == [] then map[]
    else Bump(MonthHistogram(updates[..|updates| - 1], monthOf), monthOf(updates[|updates| - 1].timestamp))
  }

  function InMonth(monthOf: Timestamp -> int, month: int): Update -> bool {
    (u: Update) => monthOf(u.timestamp) == month
  }

  /** The count the histogram holds for a month is the number of updates that fall in it. */
  lemma {:induction false} HistogramCounts(updates: seq<Update>, monthOf: Timestamp -> int, month: int)
    ensures Count(MonthHistogram(updates, monthOf), month) == |Seqs.Filter(updates, InMonth(monthOf, month))|
  {
    if updates != [] {
      var front, last := updates[..|updates| - 1], updates[|updates| - 1];
      var p := InMonth(monthOf, month);
      HistogramCounts(front, monthOf, month);
      assert updates == front + [last];
      Seqs.FilterAppend(front, [last], p);
      assert [last][1..] == [];
      assert |Seqs.Filter([last], p)| == if p(last) then 1 else 0;
    }
  }

  /** Only months with at least one update get an entry. */
  lemma {:induction false} HistogramEntriesPositive(updates: seq<Update>, monthOf: Timestamp -> int, month: int)
    ensures month in MonthHistogram(updates, monthOf) <==> Count(MonthHistogram(updates, monthOf), month) > 0
  {
    if updates != [] {
      HistogramEntriesPositive(updates[..|updates| - 1], monthOf, month);
    }
  }

  /** A month is a key of the histogram exactly when some update falls in it. */
  lemma HistogramKeys(updates: seq<Update>, monthOf: Timestamp -> int, month: int)
    ensures month in MonthHistogram(updates, monthOf) <==> exists i :: 0 <= i < |updates| && monthOf(updates[i].timestamp) == month
  {
    HistogramCounts(updates, monthOf, month);
    HistogramEntriesPositive(updates, monthOf, month);
    var inMonth := Seqs.Filter(updates, InMonth(monthOf, month));
    if month in MonthHistogram(updates, monthOf) {
      assert InMonth(monthOf, month)(inMonth[0]) && inMonth[0] in updates;
      var i :| 0 <= i < |updates| && updates[i] == inMonth[0];
    }
    if exists i :: 0 <= i < |updates| && monthOf(updates[i].timestamp) == month {
      var i :| 0 <= i < |updates| && monthOf(updates[i].timestamp) == month;
      assert InMonth(monthOf, month)(updates[i]);
      assert updates[i] in inMonth;
    }
  }

  /** The counts of months `from` to 11. */
  function Total(h: map<int, nat>, from: int): nat
    decreases 12 - from
  {
    if from >= 12 then 0 else Count(h, from) + Total(h, from + 1)
  }

  lemma {:induction false} TotalBump(h: map<int, nat>, month: int, from: int)
    requires 0 <= month < 12
    ensures Total(Bump(h, month), from) == Total(h, from) + (if from <= month then 1 else 0)
    decreases 12 - from
  {
    if from < 12 {
      TotalBump(h, month, from + 1);
    }
  }

  /** With months in 0..11, the histogram has no other key and its counts add up to the number
      of updates. */
  lemma {:induction false} HistogramTotal(updates: seq<Update>, monthOf: Timestamp -> int)
    requires forall t :: 0 <= monthOf(t) < 12
    ensures forall m :: m in MonthHistogram(updates, monthOf) ==> 0 <= m < 12
    ensures Total(MonthHistogram(updates, monthOf), 0) == |updates|
  {
    if updates != [] {
      var front := updates[..|updates| - 1];
      HistogramTotal(front, monthOf);
      TotalBump(MonthHistogram(front, monthOf), monthOf(updates[|updates| - 1].timestamp), 0);
    }
  }

  /** Every goal is active or achieved, so the two counts add up to the total. */
  lemma StatusCountsPartition(goals: seq<Goal>)
    ensures ActiveCount(goals) + |Seqs.Filter(goals, IsAchieved)| == |goals|
  {
    Seqs.FilterComplement(goals, IsActive, IsAchieved);
  }

  /** `generateYearReport(year)`: reads the year's two buckets and summarises them. */
  method GenerateYearReport(store: Store, year: int, monthOf: Timestamp -> int, faults: Faults)
    returns (report: YearReport)
    ensures var goals := store.GoalsForYear(year, faults.goalsRead);
      && report.year == year
      && report.totalGoals == |goals|
      && report.activeGoals == ActiveCount(goals)
      && report.achievedGoals == |Seqs.Filter(goals, IsAchieved)|
      && report.averageProgress == RoundedMean(SumProgress(goals), |goals|)
      && |report.goals| == |goals|
      && (forall i :: 0 <= i < |goals| ==> report.goals[i] == Summary(goals[i]))
    ensures var updates := store.UpdatesForYear(year, faults.updatesRead);
      && report.totalUpdates == |updates|
      && report.updatesByMonth == MonthHistogram(updates, monthOf)
  {
    var goals := store.GoalsForYear(year, faults.goalsRead);
    var updates := store.UpdatesForYear(year, faults.updatesRead);

    var totalGoals := |goals|;
    var activeGoals := |Seqs.Filter(goals, IsActive)|;
    var achievedGoals := |Seqs.Filter(goals, IsAchieved)|;
    var averageProgress := RoundedMean(SumProgress(goals), |goals|);

    var totalUpdates := |updates|;
    var updatesByMonth: map<int, nat> := map[];
    var i := 0;
    while i < |updates|
      invariant 0 <= i <= |updates|
      invariant updatesByMonth == MonthHistogram(updates[..i], monthOf)
    {
      assert updates[..i + 1][..i] == updates[..i];
      var month := monthOf(updates[i].timestamp);
      updatesByMonth := updatesByMonth[month := Count(updatesByMonth, month) + 1];
      i := i + 1;
    }
    assert updates[..i] == updates;

    var summaries := seq(|goals|, k requires 0 <= k < |goals| => Summary(goals[k]));
    return YearReport(year, totalGoals, activeGoals, achievedGoals, averageProgress,
                      totalUpdates, updatesByMonth, summaries);
  }

  /** A year whose buckets were never written reports no goals, no updates, an average of 0 and
      an empty histogram. */
  lemma EmptyYear(store: Store, year: int, monthOf: Timestamp -> int, faults: Faults)
    requires store.Valid()
    requires StorageKey(GoalsKind, year) !in store.writes && StorageKey(UpdatesKind, year) !in store.writes
    ensures var goals := store.GoalsForYear(year, faults.goalsRead);
      && goals == []
      && ActiveCount(goals) == 0 && |Seqs.Filter(goals, IsAchieved)| == 0
      && RoundedMean(SumProgress(goals), |goals|) == 0
    ensures var updates := store.UpdatesForYear(year, faults.updatesRead);
      && updates == []
      && MonthHistogram(updates, monthOf) == map[]
  {
    store.UnwrittenBucketIsEmpty(year, faults.goalsRead);
    store.UnwrittenBucketIsEmpty(year, faults.updatesRead);
  }
}
