/** The task entity and the rules a task must satisfy when it is constructed.

    Time is an integer count of microseconds on the local wall clock, and the
    current instant is always passed in as `now`, so every rule here is a pure
    function of its arguments. */
module TaskModel {

  /** An instant, in microseconds, on the local clock without a UTC offset. */
  type Timestamp = int

  /** One day in microseconds: the unit of a recurrence interval. */
  const DAY: int := 86_400_000_000

  const MIN_TITLE_LENGTH: nat := 1
  const MAX_TITLE_LENGTH: nat := 100
  const MIN_INTERVAL: int := 1
  const MAX_INTERVAL: int := 365

  datatype Option<+T> = None | Some(value: T)

  datatype Priority = Low | Medium | High

  /** A task as stored. `title` is also its key in the store. */
  datatype Task = Task(
    title: string,
    priority: Priority,
    deadline: Option<Timestamp>,
    dependencies: seq<string>,
    recurring: bool,
    recurrenceInterval: Option<int>,
    completed: bool,
    createdAt: Timestamp)

  /** One violated construction rule. */
  datatype Violation =
    | TitleTooShort        // fewer than MIN_TITLE_LENGTH characters
    | TitleTooLong         // more than MAX_TITLE_LENGTH characters
    | DeadlineInPast       // a deadline strictly earlier than now
    | IntervalOutOfRange   // an interval outside [MIN_INTERVAL, MAX_INTERVAL]
    | IntervalRequired     // recurring, but no interval
    | IntervalNotAllowed   // an interval on a task that is not recurring

  /** The field a violation belongs to, in declaration order: the title,
      the deadline, the recurrence interval. */
  function FieldOf(v: Violation): nat
  {
    match v
    case TitleTooShort | TitleTooLong => 0
    case DeadlineInPast => 1
    case IntervalOutOfRange | IntervalRequired | IntervalNotAllowed => 2
  }

  /** The outcome of construction: a task, or every violation found, listed
      in the order of the fields they belong to. */
  datatype Construction = Built(task: Task) | Rejected(violations: seq<Violation>)

  /* ---------------------------------------------------------------------- */
  /* Priority and its string encoding                                        */
  /* ---------------------------------------------------------------------- */

  function PriorityName(p: Priority): string
  {
    match p
    case Low => "low"
    case Medium => "medium"
    case High => "high"
  }

  /** Decodes a priority; anything other than the three names is refused. */
  function ParsePriority(s: string): (r: Option<Priority>)
    ensures r.Some? ==> PriorityName(r.value) == s
    ensures (exists p :: PriorityName(p) == s) ==> r.Some?
  {
    if s == "low" then Some(Low)
    else if s == "medium" then Some(Medium)
    else if s == "high" then Some(High)
    else None
  }

  lemma PriorityRoundTrip(p: Priority)
    ensures ParsePriority(PriorityName(p)) == Some(p)
  {
  }

  /* ---------------------------------------------------------------------- */
  /* The rules, stated directly                                              */
  /* ---------------------------------------------------------------------- */

  /** A title of acceptable length. */
  predicate TitleOk(title: string)
  {
    MIN_TITLE_LENGTH <= |title| <= MAX_TITLE_LENGTH
  }

  /** A deadline is acceptable unless it lies strictly before now. */
  predicate DeadlineOk(deadline: Option<Timestamp>, now: Timestamp)
  {
    deadline.Some? ==> now <= deadline.value
  }

  /** An interval is present exactly when the task recurs, and is in range. */
  predicate RecurrenceOk(recurring: bool, interval: Option<int>)
  {
    && (recurring <==> interval.Some?)
    && (interval.Some? ==> MIN_INTERVAL <= interval.value <= MAX_INTERVAL)
  }

  /** Every field-level rule holds of the proposed values. */
  predicate FieldsOk(title: string, deadline: Option<Timestamp>, recurring: bool,
                     interval: Option<int>, now: Timestamp)
  {
    TitleOk(title) && DeadlineOk(deadline, now) && RecurrenceOk(recurring, interval)
  }

  /** A task as construction produces it at instant `now`. */
  predicate FreshlyBuilt(t: Task, now: Timestamp)
  {
    && FieldsOk(t.title, t.deadline, t.recurring, t.recurrenceInterval, now)
    && !t.completed
    && t.createdAt == now
  }

  /* ---------------------------------------------------------------------- */
  /* Per-field validation, as the validators report it                       */
  /* ---------------------------------------------------------------------- */

  function TitleViolations(title: string): seq<Violation>
  {
    if |title| < MIN_TITLE_LENGTH then [TitleTooShort]
    else if |title| > MAX_TITLE_LENGTH then [TitleTooLong]
    else []
  }

  function DeadlineViolations(deadline: Option<Timestamp>, now: Timestamp): seq<Violation>
  {
    if deadline.Some? && deadline.value < now then [DeadlineInPast] else []
  }

  /** The range constraint on the interval is checked first; the recurrence
      validator only runs on an interval that passed it. */
  function IntervalViolations(recurring: bool, interval: Option<int>): seq<Violation>
  {
    if interval.Some? && !(MIN_INTERVAL <= interval.value <= MAX_INTERVAL) then [IntervalOutOfRange]
    else if recurring && interval.None? then [IntervalRequired]
    else if !recurring && interval.Some? then [IntervalNotAllowed]
    else []
  }

  /** Builds a task from proposed values at instant `now`. The task is
      pending and stamped with `now`; construction fails, reporting what was
      violated, when any rule does not hold. */
  function Construct(title: string, priority: Priority, deadline: Option<Timestamp>,
                     dependencies: seq<string>, recurring: bool, interval: Option<int>,
                     now: Timestamp): (r: Construction)
    ensures r.Built? <==> FieldsOk(title, deadline, recurring, interval, now)
    ensures r.Built? ==>
              && r.task.title == title && r.task.priority == priority
              && r.task.deadline == deadline && r.task.dependencies == dependencies
              && r.task.recurring == recurring && r.task.recurrenceInterval == interval
              && !r.task.completed && r.task.createdAt == now
    ensures r.Rejected? ==> |r.violations| > 0
    ensures r.Rejected? ==>
              forall i, j :: 0 <= i < j < |r.violations| ==>
                FieldOf(r.violations[i]) < FieldOf(r.violations[j])
    ensures r.Rejected? ==>
              && (TitleTooShort in r.violations <==> |title| < MIN_TITLE_LENGTH)
              && (TitleTooLong in r.violations <==> |title| > MAX_TITLE_LENGTH)
              && (DeadlineInPast in r.violations <==> !DeadlineOk(deadline, now))
              && (IntervalOutOfRange in r.violations <==>
                    interval.Some? && !(MIN_INTERVAL <= interval.value <= MAX_INTERVAL))
              && (IntervalRequired in r.violations <==> recurring && interval.None?)
              && (IntervalNotAllowed in r.violations <==>
                    && !recurring && interval.Some?
                    && MIN_INTERVAL <= interval.value <= MAX_INTERVAL)
  {
    var errors := TitleViolations(title) + DeadlineViolations(deadline, now)
                  + IntervalViolations(recurring, interval);
    if errors == [] then
      Built(Task(title, priority, deadline, dependencies, recurring, interval, false, now))
    else
      Rejected(errors)
  }

  /* ---------------------------------------------------------------------- */
  /* Properties of construction                                              */
  /* ---------------------------------------------------------------------- */

  /** Whatever construction yields satisfies every rule, is pending and is
      stamped with the construction instant. */
  lemma BuiltIsFresh(title: string, priority: Priority, deadline: Option<Timestamp>,
                     dependencies: seq<string>, recurring: bool, interval: Option<int>,
                     now: Timestamp)
    requires Construct(title, priority, deadline, dependencies, recurring, interval, now).Built?
    ensures FreshlyBuilt(Construct(title, priority, deadline, dependencies, recurring, interval, now).task, now)
  {
  }

  /** Re-constructing a freshly built task from its own fields, at the same
      instant, gives it back. */
  lemma ReconstructRoundTrip(t: Task, now: Timestamp)
    requires FreshlyBuilt(t, now)
    ensures Construct(t.title, t.priority, t.deadline, t.dependencies, t.recurring,
                      t.recurrenceInterval, now) == Built(t)
  {
  }

  /** A deadline equal to now is accepted; one a microsecond earlier is not. */
  lemma DeadlineBoundary(title: string, priority: Priority, dependencies: seq<string>,
                         recurring: bool, interval: Option<int>, now: Timestamp)
    requires TitleOk(title) && RecurrenceOk(recurring, interval)
    ensures Construct(title, priority, Some(now), dependencies, recurring, interval, now).Built?
    ensures Construct(title, priority, Some(now - 1), dependencies, recurring, interval, now)
            == Rejected([DeadlineInPast])
  {
  }

  /** A recurring flag without an interval, or an interval without the flag,
      is always refused, whatever the other fields hold. */
  lemma RecurrenceMismatchRejected(title: string, priority: Priority, deadline: Option<Timestamp>,
                                   dependencies: seq<string>, recurring: bool,
                                   interval: Option<int>, now: Timestamp)
    requires recurring != interval.Some?
    ensures Construct(title, priority, deadline, dependencies, recurring, interval, now).Rejected?
  {
  }
}
