/** The records the data layer stores: goals, progress updates, and the inputs that build them. */
module Records {
  import opened Wrappers

  /** An instant, in milliseconds; the ISO-8601 strings of the stored records denote these. */
  type Timestamp = int

  datatype Status = Active | Achieved

  datatype Goal = Goal(
    id: string,
    title: string,
    description: string,
    category: string,
    targetDate: Option<string>,
    status: Status,
    progress: int,
    createdAt: Timestamp,
    updatedAt: Timestamp,
    achievedAt: Option<Timestamp>,
    year: int)

  /** One entry of the update log; `goalTitle` is a copy of the goal's title when it was logged. */
  datatype Update = Update(
    id: string,
    goalId: string,
    goalTitle: string,
    note: string,
    progress: int,
    timestamp: Timestamp)

  /** The fields a caller passes to create a goal; absent ones are `None`. */
  datatype GoalInput = GoalInput(
    title: string,
    description: Option<string>,
    category: Option<string>,
    targetDate: Option<string>)

  /** The fields a caller passes to log progress; absent ones are `None`. */
  datatype UpdateInput = UpdateInput(progress: Option<int>, note: Option<string>)

  /** The fields an edit overrides: `Some(v)` is a property present in the patch object. */
  datatype GoalPatch = GoalPatch(
    id: Option<string>,
    title: Option<string>,
    description: Option<string>,
    category: Option<string>,
    targetDate: Option<Option<string>>,
    status: Option<Status>,
    progress: Option<int>,
    createdAt: Option<Timestamp>,
    updatedAt: Option<Timestamp>,
    achievedAt: Option<Option<Timestamp>>,
    year: Option<int>)

  /** `value || fallback` for a possibly absent string: the empty string is falsy. */
  function StringOr(value: Option<string>, fallback: string): (r: string)
    ensures value.Some? && value.value != "" ==> r == value.value
    ensures value.None? || value.value == "" ==> r == fallback
  {
    if value.Some? && value.value != "" then value.value else fallback
  }

  /** `value || fallback` for a possibly absent number: zero is falsy. */
  function NumberOr(value: Option<int>, fallback: int): (r: int)
    ensures value.Some? && value.value != 0 ==> r == value.value
    ensures value.None? || value.value == 0 ==> r == fallback
  {
    if value.Some? && value.value != 0 then value.value else fallback
  }

  /** `value || null` for a possibly absent string: the empty string becomes `null`. */
  function StringOrNull(value: Option<string>): (r: Option<string>)
    ensures value.Some? && value.value != "" ==> r == value
    ensures value.None? || value.value == "" ==> r.None?
  {
    if value.Some? && value.value != "" then value else None
  }
}
