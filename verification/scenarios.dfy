/** Two worked runs of the store, each stated as a lemma over an arbitrary
    current instant. */
module Scenarios {
  import opened TaskModel
  import opened TaskManager
  import opened DoneCommand

  /** A then B depending on A; a second B is refused; B waits on A until A
      is completed. */
  lemma DependencyScenario(now: Timestamp)
    ensures var a := Construct("A", Medium, None, [], false, None, now);
            var b := Construct("B", High, None, ["A"], false, None, now);
            && a.Built? && b.Built?
            && var (okA, s1) := AddTask(map[], a.task);
               var (okB, s2) := AddTask(s1, b.task);
               var (okB2, s3) := AddTask(s2, b.task);
               var (okDone, s4) := CompleteTask(s2, "A", now);
               && okA && okB && !okB2 && s3 == s2
               && GetPendingDependencies(s2, "B") == ["A"]
               && Done(s2, "B", now) == Blocked(["A"])
               && okDone
               && GetPendingDependencies(s4, "B") == []
  {
  }

  /** Completing a task that recurs every three days, due tomorrow, adds
      "R (Recurring)" due three days after that. */
  lemma RecurringScenario(now: Timestamp)
    ensures var r := Construct("R", Medium, Some(now + DAY), [], true, Some(3), now);
            && r.Built?
            && var (ok, s1) := AddTask(map[], r.task);
               var (done, s2) := CompleteTask(s1, "R", now);
               && ok && done
               && s2["R"].completed
               && "R (Recurring)" in s2
               && s2["R (Recurring)"].deadline == Some(now + DAY + 3 * DAY)
               && s2["R (Recurring)"].recurring
               && s2["R (Recurring)"].recurrenceInterval == Some(3)
               && !s2["R (Recurring)"].completed
  {
    var r := Construct("R", Medium, Some(now + DAY), [], true, Some(3), now).task;
    var s1 := AddTask(map[], r).1;
    assert SuccessorTitle("R") == "R (Recurring)";
    assert s1["R"] == r;
  }
}
