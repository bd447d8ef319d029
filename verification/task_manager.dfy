/** The task store: a map from title to task, and the three operations that
    read or change it. Every operation is a pure function from the store
    before to the store after; persisting the store after a change is not
    part of the model. */
module TaskManager {
  import opened TaskModel

  type Store = map<string, Task>

  /** Appended to a recurring task's title to name its successor. */
  const RECURRING_SUFFIX: string := " (Recurring)"

  /* ---------------------------------------------------------------------- */
  /* The store invariant                                                     */
  /* ---------------------------------------------------------------------- */

  /** Every dependency of every stored task names a stored task. */
  ghost predicate DependenciesResolve(s: Store)
  {
    forall k, d :: k in s && d in s[k].dependencies ==> d in s
  }

  /** Every task is stored under its own title. */
  ghost predicate KeyedByTitle(s: Store)
  {
    forall k :: k in s ==> s[k].title == k
  }

  ghost predicate Valid(s: Store)
  {
    DependenciesResolve(s) && KeyedByTitle(s)
  }

  /** The store is the same as `s` except possibly at `except`. */
  ghost predicate AgreesExcept(s: Store, s': Store, except: set<string>)
  {
    forall k :: k in s && k !in except ==> k in s' && s'[k] == s[k]
  }

  /* ---------------------------------------------------------------------- */
  /* Adding a task                                                           */
  /* ---------------------------------------------------------------------- */

  /** Whether some title in `deps` is not a key of the store. */
  function Unresolved(deps: seq<string>, s: Store): (r: bool)
    ensures r <==> exists i :: 0 <= i < |deps| && deps[i] !in s
  {
    if deps == [] then false
    else if deps[0] !in s then true
    else
      var rest := Unresolved(deps[1..], s);
      assert rest ==> exists i :: 1 <= i < |deps| && deps[i] !in s by {
        if rest {
          var j :| 0 <= j < |deps[1..]| && deps[1..][j] !in s;
          assert deps[j + 1] !in s;
        }
      }
      rest
  }

  /** Inserts `task` under its title, unless that title is taken or one of
      its dependencies is not in the store; the boolean tells which. */
  function AddTask(s: Store, task: Task): (r: (bool, Store))
    ensures r.0 <==> task.title !in s && forall d :: d in task.dependencies ==> d in s
    ensures !r.0 ==> r.1 == s
    ensures r.0 ==> && r.1.Keys == s.Keys + {task.title}
                    && r.1[task.title] == task
                    && AgreesExcept(s, r.1, {task.title})
  {
    if task.title in s then (false, s)
    else if Unresolved(task.dependencies, s) then (false, s)
    else (true, s[task.title := task])
  }

  /** Adding keeps the invariant. */
  lemma AddPreservesValid(s: Store, task: Task)
    requires Valid(s)
    ensures Valid(AddTask(s, task).1)
  {
  }

  /** A title can be added once: adding the same task again is refused. */
  lemma AddTwiceRefused(s: Store, task: Task)
    requires AddTask(s, task).0
    ensures AddTask(AddTask(s, task).1, task) == (false, AddTask(s, task).1)
  {
  }

  /* ---------------------------------------------------------------------- */
  /* Completing a task                                                       */
  /* ---------------------------------------------------------------------- */

  /** The successor's title. */
  function SuccessorTitle(title: string): (r: string)
    ensures |r| == |title| + |RECURRING_SUFFIX|
    ensures r[..|title|] == title
    ensures r[|title|..] == RECURRING_SUFFIX
  {
    title + RECURRING_SUFFIX
  }

  /** The successor's deadline: `interval` days later, or none. */
  function ShiftDeadline(deadline: Option<Timestamp>, interval: int): Option<Timestamp>
  {
    match deadline
    case None => None
    case Some(d) => Some(d + interval * DAY)
  }

  /** Whether completing `t` tries to spawn a successor: it recurs and its
      interval is present and non-zero. */
  predicate Spawns(t: Task)
  {
    t.recurring && t.recurrenceInterval.Some? && t.recurrenceInterval.value != 0
  }

  /** Constructs the successor of a recurring task at instant `now`. */
  function Successor(t: Task, now: Timestamp): Construction
    requires t.recurrenceInterval.Some?
  {
    Construct(SuccessorTitle(t.title), t.priority,
              ShiftDeadline(t.deadline, t.recurrenceInterval.value),
              t.dependencies, true, t.recurrenceInterval, now)
  }

  /** The successor, when it can be built, carries the derived title and
      deadline and copies everything else; it is built exactly when the
      derived title is short enough, the interval is in range and the
      shifted deadline is not in the past. */
  lemma SuccessorShape(t: Task, now: Timestamp)
    requires Spawns(t)
    ensures Successor(t, now).Built? <==>
              && |t.title| + |" (Recurring)"| <= MAX_TITLE_LENGTH
              && MIN_INTERVAL <= t.recurrenceInterval.value <= MAX_INTERVAL
              && (t.deadline.Some? ==> now <= t.deadline.value + t.recurrenceInterval.value * DAY)
    ensures Successor(t, now).Built? ==>
              var n := Successor(t, now).task;
              && n.title == t.title + " (Recurring)"
              && n.deadline == (if t.deadline.Some?
                                then Some(t.deadline.value + t.recurrenceInterval.value * DAY)
                                else None)
              && n.priority == t.priority
              && n.dependencies == t.dependencies
              && n.recurring
              && n.recurrenceInterval == t.recurrenceInterval
              && !n.completed
              && n.createdAt == now
  {
  }

  /** Marks the task titled `title` completed and, if it recurs, tries to add
      its successor; a successor that cannot be built or added is dropped
      without failing the completion. The boolean is false exactly when no
      such task exists. Pending dependencies are not consulted. */
  function CompleteTask(s: Store, title: string, now: Timestamp): (r: (bool, Store))
    ensures r.0 <==> title in s
    ensures !r.0 ==> r.1 == s
    ensures r.0 ==> title in r.1 && r.1[title] == s[title].(completed := true)
    ensures s.Keys <= r.1.Keys
    ensures AgreesExcept(s, r.1, {title})
    ensures forall k :: k in r.1 && k !in s ==> k == SuccessorTitle(s[title].title)
  {
    if title !in s then (false, s)
    else
      var done := s[title].(completed := true);
      var marked := s[title := done];
      if Spawns(done) then
        match Successor(done, now)
        case Built(next) => (true, AddTask(marked, next).1)
        case Rejected(_) => (true, marked)
      else
        (true, marked)
  }

  /** The successor is added exactly when the task spawns one, the successor
      can be built, and its title is not yet taken; it is then stored under
      its title. */
  lemma CompleteSpawnsSuccessor(s: Store, title: string, now: Timestamp)
    requires Valid(s) && title in s
    ensures var s' := CompleteTask(s, title, now).1;
            && (SuccessorTitle(title) in s' - s.Keys <==>
                  && Spawns(s[title])
                  && Successor(s[title], now).Built?
                  && SuccessorTitle(title) !in s)
            && (SuccessorTitle(title) in s' - s.Keys ==>
                  s'[SuccessorTitle(title)] == Successor(s[title], now).task)
            && (SuccessorTitle(title) !in s' - s.Keys ==> s'.Keys == s.Keys)
  {
  }

  /** The successor's title is the same on every completion, so once a
      successor exists, completing the original again adds nothing. */
  lemma RecompletionAddsNothing(s: Store, title: string, now: Timestamp)
    requires KeyedByTitle(s) && title in s && SuccessorTitle(title) in s
    ensures CompleteTask(s, title, now).1.Keys == s.Keys
  {
  }

  /** Completing keeps the invariant. */
  lemma CompletePreservesValid(s: Store, title: string, now: Timestamp)
    requires Valid(s)
    ensures Valid(CompleteTask(s, title, now).1)
  {
  }

  /** No operation removes a task or un-completes one. */
  lemma OperationsAreMonotone(s: Store, task: Task, title: string, now: Timestamp)
    ensures var a := AddTask(s, task).1;
            forall k :: k in s ==> k in a && (s[k].completed ==> a[k].completed)
    ensures var c := CompleteTask(s, title, now).1;
            forall k :: k in s ==> k in c && (s[k].completed ==> c[k].completed)
  {
  }

  /* ---------------------------------------------------------------------- */
  /* Pending dependencies                                                    */
  /* ---------------------------------------------------------------------- */

  /** The titles in `deps` whose tasks are not completed, in order. */
  function PendingAmong(deps: seq<string>, s: Store): (r: seq<string>)
    requires forall d :: d in deps ==> d in s
    ensures |r| <= |deps|
    ensures forall x :: x in r <==> x in deps && !s[x].completed
  {
    if deps == [] then []
    else
      var rest := PendingAmong(deps[1..], s);
      assert forall x :: x in deps <==> x == deps[0] || x in deps[1..];
      if s[deps[0]].completed then rest else [deps[0]] + rest
  }

  /** The pending dependencies of the task titled `title`; none when there is
      no such task. The query reads each dependency's task by key, which
      raises a KeyError for a dependency that is not stored; the precondition
      excludes that case, and `Valid` implies it. */
  function GetPendingDependencies(s: Store, title: string): (r: seq<string>)
    requires title in s ==> forall d :: d in s[title].dependencies ==> d in s
    ensures title !in s ==> r == []
    ensures title in s ==> forall x :: x in r <==> x in s[title].dependencies && !s[x].completed
  {
    if title !in s then [] else PendingAmong(s[title].dependencies, s)
  }

  /** Whether `d` names a stored task that is not completed. */
  ghost predicate IsPending(s: Store, d: string)
  {
    d in s && !s[d].completed
  }

  /** `r` holds the entries of `deps` at positions `idx`. */
  ghost predicate PicksAt(deps: seq<string>, r: seq<string>, idx: seq<nat>)
  {
    && |idx| == |r|
    && forall k :: 0 <= k < |idx| ==> idx[k] < |deps| && r[k] == deps[idx[k]]
  }

  ghost predicate Increasing(idx: seq<nat>)
  {
    forall k, l :: 0 <= k < l < |idx| ==> idx[k] < idx[l]
  }

  /** `idx` holds exactly the positions of `deps` whose tasks are pending. */
  ghost predicate PendingPositions(deps: seq<string>, idx: seq<nat>, s: Store)
  {
    forall i :: 0 <= i < |deps| ==> (IsPending(s, deps[i]) <==> i in idx)
  }

  /** `idx` lists, in increasing order, the positions of `deps` whose tasks
      are pending, and `r` holds the titles at those positions. */
  ghost predicate SelectsPending(deps: seq<string>, r: seq<string>, idx: seq<nat>, s: Store)
  {
    PicksAt(deps, r, idx) && Increasing(idx) && PendingPositions(deps, idx, s)
  }

  /** Positions shifted by one. */
  function Shift(idx: seq<nat>): seq<nat>
  {
    seq(|idx|, k requires 0 <= k < |idx| => idx[k] + 1)
  }

  /** Shifting moves membership up by one and leaves position 0 out. */
  lemma ShiftMembership(idx: seq<nat>, i: int)
    ensures 0 !in Shift(idx)
    ensures i in idx <==> i + 1 in Shift(idx)
  {
    var sh := Shift(idx);
    if i in idx {
      var k :| 0 <= k < |idx| && idx[k] == i;
      assert sh[k] == i + 1;
    }
  }

  lemma ShiftPicks(deps: seq<string>, r: seq<string>, idx: seq<nat>)
    requires |deps| > 0 && PicksAt(deps[1..], r, idx)
    ensures PicksAt(deps, r, Shift(idx))
    ensures PicksAt(deps, [deps[0]] + r, [0] + Shift(idx))
  {
    var sh := Shift(idx);
    forall k | 0 <= k < |idx|
      ensures sh[k] < |deps| && r[k] == deps[sh[k]]
    {
      assert r[k] == deps[1..][idx[k]];
    }
    var idx' := [0] + sh;
    var r' := [deps[0]] + r;
    forall k | 0 < k < |idx'|
      ensures idx'[k] < |deps| && r'[k] == deps[idx'[k]]
    {
      assert idx'[k] == sh[k - 1] && r'[k] == r[k - 1];
    }
  }

  lemma ShiftIncreasing(idx: seq<nat>)
    requires Increasing(idx)
    ensures Increasing(Shift(idx))
    ensures Increasing([0] + Shift(idx))
  {
    var idx' := [0] + Shift(idx);
    forall k, l | 0 <= k < l < |idx'|
      ensures idx'[k] < idx'[l]
    {
      assert idx'[l] == idx[l - 1] + 1;
      if k > 0 {
        assert idx'[k] == idx[k - 1] + 1;
      }
    }
  }

  lemma ShiftPending(deps: seq<string>, idx: seq<nat>, s: Store)
    requires |deps| > 0 && PendingPositions(deps[1..], idx, s)
    ensures !IsPending(s, deps[0]) ==> PendingPositions(deps, Shift(idx), s)
    ensures IsPending(s, deps[0]) ==> PendingPositions(deps, [0] + Shift(idx), s)
  {
    var sh := Shift(idx);
    forall i | 0 <= i < |deps|
      ensures i == 0 ==> i !in sh
      ensures i > 0 ==> (IsPending(s, deps[i]) <==> i in sh)
    {
      ShiftMembership(idx, i - 1);
      if i > 0 {
        assert deps[i] == deps[1..][i - 1];
      }
    }
    assert forall i :: i in [0] + sh <==> i == 0 || i in sh;
  }

  /** The positions of `deps` the pending list was taken from, in order. */
  lemma {:induction false} PendingPositionsOf(deps: seq<string>, s: Store)
    returns (idx: seq<nat>)
    requires forall d :: d in deps ==> d in s
    ensures SelectsPending(deps, PendingAmong(deps, s), idx, s)
    decreases |deps|
  {
    if deps == [] {
      idx := [];
    } else {
      var rest := PendingPositionsOf(deps[1..], s);
      ShiftPicks(deps, PendingAmong(deps[1..], s), rest);
      ShiftIncreasing(rest);
      ShiftPending(deps, rest, s);
      idx := if IsPending(s, deps[0]) then [0] + Shift(rest) else Shift(rest);
    }
  }

  /** The pending dependencies are exactly the order-preserving subsequence
      of the dependency list picked out by "not completed", duplicates
      included. */
  lemma PendingIsOrderedFilter(s: Store, title: string)
    requires title in s ==> forall d :: d in s[title].dependencies ==> d in s
    ensures title in s ==>
              exists idx :: SelectsPending(s[title].dependencies,
                                           GetPendingDependencies(s, title), idx, s)
  {
    if title in s {
      var idx := PendingPositionsOf(s[title].dependencies, s);
      assert SelectsPending(s[title].dependencies, GetPendingDependencies(s, title), idx, s);
    }
  }
}
