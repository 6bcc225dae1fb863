/** Milestone detection and the choice of an encouragement message. */
module Encouragement {
  import opened Wrappers
  import Seqs

  const ProgressMessages: seq<string> := [
    "🎉 Great progress! Keep it up!",
    "💪 You're doing amazing!",
    "🌟 Every step counts!",
    "✨ You're on the right track!",
    "🚀 Keep pushing forward!",
    "💯 You've got this!",
    "🎯 Making great strides!",
    "⭐ Progress looks fantastic!"
  ]

  const AchievementMessages: seq<string> := [
    "🏆 Congratulations! You did it!",
    "🎊 Goal achieved! You're incredible!",
    "🌟 Amazing work! You reached your goal!",
    "💫 You're unstoppable! Goal completed!",
    "🎉 Fantastic! Another goal conquered!",
    "✨ Outstanding achievement!",
    "🔥 You're on fire! Goal accomplished!",
    "💎 Perfect! You nailed it!"
  ]

  const MilestoneMessages: seq<string> := [
    "🎯 25% complete! You're a quarter of the way there!",
    "🎯 50% complete! Halfway there!",
    "🎯 75% complete! Almost there!",
    "🎯 90% complete! So close to the finish line!"
  ]

  /** The progress thresholds, in the order they are searched. */
  const Milestones: seq<int> := [25, 50, 75, 90]

  /** `Math.floor(random * n)` for a `random` drawn by `Math.random()`. */
  function RandomIndex(random: real, n: nat): (i: int)
    requires 0.0 <= random < 1.0
    ensures n > 0 ==> 0 <= i < n
  {
    var x := random * n as real;
    assert n > 0 ==> x < n as real by {
      if n > 0 {
        assert n as real - x == (1.0 - random) * n as real;
        assert (1.0 - random) * n as real > 0.0;
      }
    }
    x.Floor
  }

  /** The message shown for `kind` ("achievement", "milestone" or anything else) at `progress`;
      `random` is the value `Math.random()` returned. */
  function EncouragementMessage(kind: string, progress: int, random: real): (m: string)
    requires 0.0 <= random < 1.0
    ensures kind == "achievement" ==> m in AchievementMessages
    ensures kind == "milestone" && progress >= 90 ==> m == MilestoneMessages[3]
    ensures kind == "milestone" && 75 <= progress < 90 ==> m == MilestoneMessages[2]
    ensures kind == "milestone" && 50 <= progress < 75 ==> m == MilestoneMessages[1]
    ensures kind == "milestone" && 25 <= progress < 50 ==> m == MilestoneMessages[0]
    ensures kind == "milestone" && progress < 25 ==> m in ProgressMessages
    ensures kind != "achievement" && kind != "milestone" ==> m in ProgressMessages
  {
    if kind == "achievement" then
      AchievementMessages[RandomIndex(random, |AchievementMessages|)]
    else if kind == "milestone" && progress >= 90 then
      MilestoneMessages[3]
    else if kind == "milestone" && progress >= 75 then
      MilestoneMessages[2]
    else if kind == "milestone" && progress >= 50 then
      MilestoneMessages[1]
    else if kind == "milestone" && progress >= 25 then
      MilestoneMessages[0]
    else
      ProgressMessages[RandomIndex(random, |ProgressMessages|)]
  }

  /** The band a milestone message stands for: the message for a progress value names the
      largest threshold that value has reached. */
  lemma MilestoneMessageNamesLargestReached(progress: int, k: nat, random: real)
    requires 0.0 <= random < 1.0
    requires k < |Milestones| && Milestones[k] <= progress
    requires k + 1 < |Milestones| ==> progress < Milestones[k + 1]
    ensures EncouragementMessage("milestone", progress, random) == MilestoneMessages[k]
  {
    assert Milestones == [25, 50, 75, 90];
    if k == 0 {
    } else if k == 1 {
    } else if k == 2 {
    } else {
    }
  }

  function Crosses(oldProgress: int, newProgress: int): int -> bool {
    m => oldProgress < m && newProgress >= m
  }

  /** `milestones.find(m => old < m && new >= m)`: the first threshold crossed, if any. */
  function FirstCrossed(oldProgress: int, newProgress: int): (r: Option<int>)
    ensures r.Some? ==> r.value in Milestones && oldProgress < r.value <= newProgress
    ensures r.Some? ==> forall m :: m in Milestones && oldProgress < m <= newProgress ==> r.value <= m
    ensures r.None? <==> forall m :: m in Milestones ==> !(oldProgress < m <= newProgress)
  {
    match Seqs.FirstIndex(Milestones, Crosses(oldProgress, newProgress))
    case Some(i) => Some(Milestones[i])
    case None => None
  }

  /** The crossed threshold is truthy (non-zero), so the caller gets back `newProgress` itself,
      not the threshold. */
  function CheckMilestone(oldProgress: int, newProgress: int): (r: Option<int>)
    ensures r.Some? <==> exists m :: m in Milestones && oldProgress < m <= newProgress
    ensures r.Some? ==> r.value == newProgress && r.value >= 25
  {
    match FirstCrossed(oldProgress, newProgress)
    case Some(m) => if m != 0 then Some(newProgress) else None
    case None => None
  }

  /** No progress, or a step backwards, never crosses a milestone. */
  lemma NoMilestoneWithoutGain(oldProgress: int, newProgress: int)
    requires newProgress <= oldProgress
    ensures CheckMilestone(oldProgress, newProgress) == None
  {
  }

  /** The first threshold crossed is the lowest; when a step crosses several the message still
      reflects where progress landed, because the caller passes `newProgress` on. */
  lemma CrossingSeveralReportsLowest()
    ensures FirstCrossed(40, 80) == Some(50)
    ensures CheckMilestone(40, 80) == Some(80)
    ensures FirstCrossed(20, 30) == Some(25) && CheckMilestone(20, 30) == Some(30)
    ensures CheckMilestone(80, 80) == None
  {
    assert Milestones[1] == 50 && Milestones[0] == 25;
  }
}
