# Task manager core, in Dafny

A model of the core of a personal command-line task tracker (`taskmanager.py`).
It covers five things:

- the task entity and the rules a task must satisfy when it is constructed;
- the store, a map from title to task;
- adding a task;
- completing a task, including the successor a recurring task spawns;
- the pending-dependency query, and the `done` command's rule that completion
  happens only when nothing is pending.

Every operation is a pure function. It takes the store and returns the store
afterwards, together with the boolean the source returns. Time is an integer
count of microseconds. `DAY` is one day in that unit. The current instant is
passed in as `now` wherever the source reads the clock.

Files:

- `task_model.dfy` (module `TaskModel`): `Priority` and its string names,
  `Task`, and the construction rules. `Construct` returns the task, or every
  violated rule in field order, as the validation library reports them.
- `task_manager.dfy` (module `TaskManager`): the store and its invariant,
  `AddTask`, `CompleteTask`, successor synthesis, `GetPendingDependencies`.
  The invariant `Valid` says that every dependency of every stored task is a
  stored title, and that every task is stored under its own title.
- `done_command.dfy` (module `DoneCommand`): the gate in the `done` command.
- `scenarios.dfy` (module `Scenarios`): two worked runs of the store, stated
  as lemmas.

Behaviour worth noting:

- A deadline equal to the current instant is accepted: the validator at
  taskmanager.py:36 rejects only `v < datetime.now()`.
- Completing a task spawns a successor only when the interval is non-zero, as
  Python's truthiness test on the interval does. Construction keeps the
  interval in [1, 365], so for constructed tasks this is the same as "has an
  interval".
- The successor's title is built from the stored task's `title` field, not
  from the key it was looked up by. Under `Valid` the two are the same.

## Model

| member | source | states |
|---|---|---|
| TaskModel.ParsePriority | taskmanager.py:19-22 | Only the three names "low", "medium" and "high" decode. Each decodes to the priority with that name. |
| TaskModel.PriorityRoundTrip | taskmanager.py:19-22 | Decoding a priority's name gives back that priority. |
| TaskModel.Construct | taskmanager.py:24-46 | Construction succeeds exactly when three rules hold: title length in [1,100]; no deadline earlier than now; an interval present exactly when the task recurs, and in [1,365]. The built task carries the given fields, is not completed and is stamped with now. On failure the report holds each violated rule and no other, at most one per field, in field order (title, deadline, interval). An out-of-range interval reports only the range error. |
| TaskModel.BuiltIsFresh | taskmanager.py:25-32 | A constructed task satisfies every field rule, is pending, and was created at the construction instant. |
| TaskModel.ReconstructRoundTrip | taskmanager.py:24-46 | Constructing again from a freshly built task's own fields, at the same instant, yields that same task. |
| TaskModel.DeadlineBoundary | taskmanager.py:34-38 | A deadline equal to now is accepted. A deadline one unit earlier fails with exactly the deadline violation. |
| TaskModel.RecurrenceMismatchRejected | taskmanager.py:40-46 | Construction fails whenever `recurring` and the presence of an interval disagree, whatever the other fields hold. |
| TaskManager.Unresolved | taskmanager.py:79 | True exactly when some position of the dependency list holds a title that is not in the store. |
| TaskManager.AddTask | taskmanager.py:76-83 | Succeeds exactly when the title is new and every dependency is stored. On failure the store is unchanged. On success the title maps to exactly the given task, one key is added, and every other entry is unchanged. |
| TaskManager.AddPreservesValid | taskmanager.py:79-81 | Adding keeps every dependency resolvable, and keeps every task under its own title. |
| TaskManager.AddTwiceRefused | taskmanager.py:77-78 | After a successful add, adding the same task again fails and leaves the store unchanged. |
| TaskManager.SuccessorShape | taskmanager.py:91-101 | The successor can be built exactly when three things hold: the suffixed title fits 100 characters; the interval is in range; the shifted deadline is not before now. When built, it has the title plus " (Recurring)" and the deadline plus interval days (none if there was none). It copies the priority, dependencies and interval, is recurring, pending, and created now. |
| TaskManager.CompleteTask | taskmanager.py:85-107 | Succeeds exactly when the title is stored. On failure the store is unchanged. On success the task becomes completed and nothing else about it changes. No key is removed, and every other entry is unchanged. The only key that can appear is the successor's title. Pending dependencies are not consulted. |
| TaskManager.CompleteSpawnsSuccessor | taskmanager.py:91-104 | For a valid store, the successor is added exactly when the task recurs with a non-zero interval, the successor can be built, and its title is not taken. It is then stored as built. Otherwise the keys are exactly those before. |
| TaskManager.RecompletionAddsNothing | taskmanager.py:95-102 | Once a successor title exists, completing the original again adds no key, because the derived title never changes. |
| TaskManager.CompletePreservesValid | taskmanager.py:85-107 | Completing keeps every dependency resolvable, and keeps every task under its own title. This holds with or without a successor. |
| TaskManager.OperationsAreMonotone | taskmanager.py:76-107 | Neither adding nor completing removes a stored task or makes a completed task pending again. |
| TaskManager.PendingAmong | taskmanager.py:113 | At most as long as the dependency list. Holds a title exactly when it is in the list and its task is not completed. |
| TaskManager.GetPendingDependencies | taskmanager.py:109-113 | Empty for an absent title. Otherwise holds exactly the dependencies whose tasks are not completed. A dependency must be stored, since the source looks it up by key. |
| TaskManager.PendingIsOrderedFilter | taskmanager.py:109-113 | For a stored title, the pending list is the order-preserving subsequence of the dependency list. It holds the entries at exactly those positions whose task is not completed, duplicates included. Some increasing list of positions witnesses this. |
| DoneCommand.Done | taskmanager.py:182-195 | The command reports not-found exactly for an absent title. It refuses, with the pending titles, exactly when some dependency is not completed. Otherwise it completes the task. A task it completes had all its dependencies completed, and no other entry changes. |
| DoneCommand.DonePreservesValid | taskmanager.py:185-190 | When the command completes, its store is the store's own completion result, so the invariant is kept. |
| DoneCommand.GateOnlyInCommand | taskmanager.py:85-89 | The store completes a task that has a pending dependency, while the command refuses the same task and names that dependency. |
| Scenarios.DependencyScenario | taskmanager.py:76-113 | Worked run: add A, add B depending on A, re-add B (refused, store unchanged). B's pending list is [A] and `done B` is blocked. Complete A; B's pending list is then empty. |
| Scenarios.RecurringScenario | taskmanager.py:85-107 | Worked run: completing R, due tomorrow and recurring every 3 days, marks R completed. It also adds a pending, recurring "R (Recurring)", due 3 days after R. |

## Left out

- Persistence (`load_tasks`, `save_tasks`, JSON encoding of dates): file I/O and library serialisation. Each `save_tasks` call is a no-op in the model. Loading does not re-check the store invariant; the model assumes it instead. Loading does rebuild each stored task with `parse_obj` (taskmanager.py:64), which runs the construction validators again, including the deadline check at taskmanager.py:34-38 against the current clock. A stored task whose deadline has passed therefore makes `TaskManager()` (taskmanager.py:115) raise at startup. The model's operations accept stores that hold overdue tasks.
- The recurrence validator at taskmanager.py:42 reads the recurring flag through `values.get`. The source imports `field_validator` (taskmanager.py:11), which exists only in version 2 of the validation library. There a validator's third parameter is a validation-info object: it keeps the fields under `.data` and has no `.get`. Read as written, line 42 therefore raises `AttributeError` whenever `recurrence_interval` is passed as `None` or as a value in [1, 365], and both construction sites pass it (taskmanager.py:100, taskmanager.py:144). An out-of-range value fails the range constraint at taskmanager.py:30 first, so the validator never runs on it; it gives an ordinary validation error, which is a `ValueError`. `AttributeError` is not a `ValueError`, so neither `except ValueError` (taskmanager.py:103, taskmanager.py:152) catches it. The model leaves this crash out and uses the rule the validator evidently intends: an interval is present exactly when the task recurs.
- The validation library's machinery (validator dispatch, `parse_obj`, JSON encoders) and the exact text of its error messages. A violation is an enumerated value.
- The `add` command (option parsing, `fromisoformat`, comma-splitting of dependencies, its own dependency pre-check), `ls` and `view`: presentation over the operations modelled here.
- Console output, including the `done` command's "New recurring task created" line. That line is printed whenever the task is recurring, even when no successor was added.
- The process-wide `task_manager` instance and the entry point: the store is passed explicitly.
- The deadline validator and the `created_at` default each read the clock, at slightly different moments. The model uses one instant `now` for both.
- Timestamps stand for local times without a UTC offset. A deadline that carries an offset (for example `fromisoformat("2030-01-01T00:00+00:00")` at taskmanager.py:131) makes the comparison with `datetime.now()` at taskmanager.py:36 raise `TypeError`. Neither `except ValueError` (taskmanager.py:103, taskmanager.py:152) catches it, so construction ends in an uncaught `TypeError`; this path is not modelled.
- Real clock time and the `datetime` range. Timestamps are unbounded integers. The `OverflowError` that adding days to a deadline near the year 9999 would raise is not modelled.
- Insertion order of the store (the order `ls` lists tasks in): the store is a `map`.
- In-place mutation: the source flips `completed` on the stored object. The model replaces the map entry with a copy that differs only in that field.
