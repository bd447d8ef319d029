/** The `done` command: the only place where pending dependencies stop a
    completion. The store's own completion does not look at them. */
module DoneCommand {
  import opened TaskModel
  import opened TaskManager

  /** What the command does with a title. */
  datatype DoneOutcome =
    | Blocked(pending: seq<string>)   // refused: these dependencies are still pending
    | NotFound                        // no task has this title
    | Completed(store: Store)         // completed; the store afterwards

  /** Completes the task titled `title` only when none of its dependencies
      is pending. */
  function Done(s: Store, title: string, now: Timestamp): (r: DoneOutcome)
    requires title in s ==> forall d :: d in s[title].dependencies ==> d in s
    ensures r.NotFound? <==> title !in s
    ensures r.Blocked? <==> title in s && exists d :: d in s[title].dependencies && !s[d].completed
    ensures r.Blocked? ==> forall x :: x in r.pending <==> x in s[title].dependencies && !s[x].completed
    ensures r.Blocked? ==> r.pending == GetPendingDependencies(s, title)
    ensures r.Completed? ==>
              && (forall d :: d in s[title].dependencies ==> s[d].completed)
              && title in r.store && r.store[title].completed
              && AgreesExcept(s, r.store, {title})
  {
    var pending := GetPendingDependencies(s, title);
    if pending != [] then
      assert pending[0] in pending;
      Blocked(pending)
    else
      var (ok, s') := CompleteTask(s, title, now);
      if ok then Completed(s') else NotFound
  }

  /** The command completes exactly what the store's completion would, once
      the gate lets it through, and so keeps the store invariant. */
  lemma DonePreservesValid(s: Store, title: string, now: Timestamp)
    requires Valid(s)
    ensures Done(s, title, now).Completed? ==>
              && Done(s, title, now).store == CompleteTask(s, title, now).1
              && Valid(Done(s, title, now).store)
  {
  }

  /** The store completes a task whose dependency is still pending, while the
      command refuses it: the gate is in the command alone. */
  lemma GateOnlyInCommand(s: Store, title: string, dep: string, now: Timestamp)
    requires Valid(s) && title in s
    requires dep in s[title].dependencies && !s[dep].completed
    ensures CompleteTask(s, title, now).0
    ensures CompleteTask(s, title, now).1[title].completed
    ensures Done(s, title, now).Blocked?
    ensures dep in Done(s, title, now).pending
  {
  }
}
