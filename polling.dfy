/** The per-task decision and the watermark of `TaskRunner.run`: one polling cycle edits every
    task, writes back and comments on the eligible tasks the edit changed, and moves the
    watermark along. The two remote calls are recorded as events in a log. */
module Polling {
  import opened TaskEditor

  /** A remote call: the write-back of a task's edited fields, or the confirmation comment. */
  datatype Event = Write(taskId: string) | Comment(taskId: string)

  /** The watermark after a cycle over `tasks` that started at `w`: every task created no
      earlier than the current watermark moves it to its own creation time. */
  function Watermark(w: int, tasks: seq<Task>): int
    decreases |tasks|
  {
    if tasks == [] then w
    else
      var before := Watermark(w, tasks[..|tasks| - 1]);
      var t := tasks[|tasks| - 1];
      if t.dateCreated >= before then t.dateCreated else before
  }

  /** Task `i` of the cycle is processed: it was created no earlier than the watermark it meets. */
  predicate Eligible(w: int, tasks: seq<Task>, i: nat)
    requires i < |tasks|
  {
    tasks[i].dateCreated >= Watermark(w, tasks[..i])
  }

  /** The editor with its rule lists fixed. The decisions below are stated for any editor
      `edit`; the poller's is `EditWith(rules)`. */
  function EditWith(rules: Rules): Task -> Task
  {
    t => EditedTask(t, rules)
  }

  /** The calls one task causes when it meets watermark `w`: none unless it is eligible and its
      edited copy differs from it, a write followed by a comment otherwise. */
  function Publish(t: Task, edit: Task -> Task, w: int): seq<Event>
  {
    if t.dateCreated >= w && edit(t) != t then [Write(t.id), Comment(t.id)] else []
  }

  /** The calls a whole cycle over `tasks` causes, in order. */
  function CycleEvents(w: int, tasks: seq<Task>, edit: Task -> Task): seq<Event>
    decreases |tasks|
  {
    if tasks == [] then []
    else
      var init := tasks[..|tasks| - 1];
      CycleEvents(w, init, edit) + Publish(tasks[|tasks| - 1], edit, Watermark(w, init))
  }

  /** The watermark after `n` cycles over the same tasks. */
  function RunWatermark(w: int, tasks: seq<Task>, n: nat): int
  {
    if n == 0 then w else Watermark(RunWatermark(w, tasks, n - 1), tasks)
  }

  /** The calls `n` cycles over the same tasks cause, in order. */
  function RunEvents(w: int, tasks: seq<Task>, edit: Task -> Task, n: nat): seq<Event>
  {
    if n == 0 then []
    else RunEvents(w, tasks, edit, n - 1) + CycleEvents(RunWatermark(w, tasks, n - 1), tasks, edit)
  }

  /** `k` more cycles that each cause `events`. */
  function Repeat(events: seq<Event>, k: nat): seq<Event>
  {
    if k == 0 then [] else Repeat(events, k - 1) + events
  }

  /** Every write is immediately followed by the comment on the same task, and nothing else
      appears in the log. */
  predicate Paired(log: seq<Event>)
    decreases |log|
  {
    log == [] || (|log| >= 2 && log[0].Write? && log[1] == Comment(log[0].taskId) && Paired(log[2..]))
  }

  /** The poller. `lastUpdateTime` is the watermark, which the source keeps on the class and
      starts at 0; `log` is the sequence of remote calls made so far. */
  class TaskRunner {
    var lastUpdateTime: int
    var log: seq<Event>

    constructor ()
      ensures lastUpdateTime == 0 && log == []
    {
      lastUpdateTime := 0;
      log := [];
    }

    /** One pass of the inner loop of `run` over the fetched tasks. */
    method RunCycle(tasks: seq<Task>, rules: Rules)
      modifies this
      ensures lastUpdateTime == Watermark(old(lastUpdateTime), tasks)
      ensures log == old(log) + CycleEvents(old(lastUpdateTime), tasks, EditWith(rules))
      ensures lastUpdateTime >= old(lastUpdateTime)
    {
      ghost var w0 := lastUpdateTime;
      ghost var log0 := log;
      for k := 0 to |tasks|
        invariant lastUpdateTime == Watermark(w0, tasks[..k])
        invariant log == log0 + CycleEvents(w0, tasks[..k], EditWith(rules))
      {
        var events, w := ProcessTask(tasks[k], rules, lastUpdateTime);
        CycleStepLog(w0, tasks, k, EditWith(rules), log0, log, events);
        log := log + events;
        lastUpdateTime := w;
      }
      assert tasks[..|tasks|] == tasks;
      WatermarkIsMax(w0, tasks);
    }

    /** `run` with its cycle count as a parameter, over a task list fetched once. */
    method Run(cycles: nat, tasks: seq<Task>, rules: Rules)
      modifies this
      ensures lastUpdateTime == RunWatermark(old(lastUpdateTime), tasks, cycles)
      ensures log == old(log) + RunEvents(old(lastUpdateTime), tasks, EditWith(rules), cycles)
    {
      ghost var w0 := lastUpdateTime;
      ghost var log0 := log;
      for c := 0 to cycles
        invariant lastUpdateTime == RunWatermark(w0, tasks, c)
        invariant log == log0 + RunEvents(w0, tasks, EditWith(rules), c)
      {
        ghost var before, wb := log, lastUpdateTime;
        RunCycle(tasks, rules);
        RunStep(w0, tasks, EditWith(rules), c, log0, before, log, wb, lastUpdateTime);
      }
    }
  }

  /** The body of the inner loop of `run` for one task met at watermark `w`: the calls it
      makes and the watermark it leaves. */
  method ProcessTask(original: Task, rules: Rules, w: int) returns (events: seq<Event>, next: int)
    ensures events == Publish(original, EditWith(rules), w)
    ensures next == if original.dateCreated >= w then original.dateCreated else w
  {
    var updated := EditTask(original, rules);
    events := [];
    next := w;
    if updated.dateCreated >= w {
      if updated != original {
        events := events + [Write(updated.id)];
        events := events + [Comment(updated.id)];
        assert events == [Write(original.id), Comment(original.id)];
      }
      next := original.dateCreated;
    }
  }


  // ---------------------------------------------------------------------------
  // Properties
  // ---------------------------------------------------------------------------

  /** The watermark after a cycle is the largest of its start and the tasks' creation times. */
  lemma {:induction false} WatermarkIsMax(w: int, tasks: seq<Task>)
    ensures Watermark(w, tasks) >= w
    ensures forall i :: 0 <= i < |tasks| ==> Watermark(w, tasks) >= tasks[i].dateCreated
    ensures Watermark(w, tasks) == w
            || exists i :: 0 <= i < |tasks| && Watermark(w, tasks) == tasks[i].dateCreated
    decreases |tasks|
  {
    if tasks != [] {
      var init := tasks[..|tasks| - 1];
      WatermarkIsMax(w, init);
      assert forall i :: 0 <= i < |init| ==> init[i] == tasks[i];
    }
  }

  /** One more task: the watermark and the log as the loop body of `run` extends them. */
  lemma CycleStep(w: int, tasks: seq<Task>, k: nat, edit: Task -> Task)
    requires k < |tasks|
    ensures Watermark(w, tasks[..k + 1])
            == if Eligible(w, tasks, k) then tasks[k].dateCreated else Watermark(w, tasks[..k])
    ensures CycleEvents(w, tasks[..k + 1], edit)
            == CycleEvents(w, tasks[..k], edit) + Publish(tasks[k], edit, Watermark(w, tasks[..k]))
  {
    assert tasks[..k + 1][..k] == tasks[..k];
  }

  /** The loop body of `run` keeps the log of the cycle so far in step with `CycleEvents`. */
  lemma CycleStepLog(w: int, tasks: seq<Task>, k: nat, edit: Task -> Task,
                     log0: seq<Event>, log: seq<Event>, events: seq<Event>)
    requires k < |tasks|
    requires log == log0 + CycleEvents(w, tasks[..k], edit)
    requires events == Publish(tasks[k], edit, Watermark(w, tasks[..k]))
    ensures log + events == log0 + CycleEvents(w, tasks[..k + 1], edit)
    ensures Watermark(w, tasks[..k + 1])
            == if tasks[k].dateCreated >= Watermark(w, tasks[..k]) then tasks[k].dateCreated else Watermark(w, tasks[..k])
  {
    CycleStep(w, tasks, k, edit);
  }

  /** After the last eligible task the watermark stays at that task's creation time. */
  lemma {:induction false} WatermarkAfterEligible(w: int, tasks: seq<Task>, i: nat, m: nat)
    requires i < m <= |tasks|
    requires Eligible(w, tasks, i)
    requires forall j :: i < j < m ==> !Eligible(w, tasks, j)
    ensures Watermark(w, tasks[..m]) == tasks[i].dateCreated
    decreases m
  {
    CycleStep(w, tasks, m - 1, t => t);
    if m > i + 1 {
      WatermarkAfterEligible(w, tasks, i, m - 1);
    }
  }

  /** The watermark after a cycle is the creation time of the last eligible task. */
  lemma WatermarkIsLastEligible(w: int, tasks: seq<Task>, i: nat)
    requires i < |tasks| && Eligible(w, tasks, i)
    requires forall j :: i < j < |tasks| ==> !Eligible(w, tasks, j)
    ensures Watermark(w, tasks) == tasks[i].dateCreated
  {
    WatermarkAfterEligible(w, tasks, i, |tasks|);
    assert tasks[..|tasks|] == tasks;
  }

  /** While no task is eligible the watermark does not move. */
  lemma {:induction false} WatermarkNoneEligible(w: int, tasks: seq<Task>, m: nat)
    requires m <= |tasks|
    requires forall j :: 0 <= j < m ==> !Eligible(w, tasks, j)
    ensures Watermark(w, tasks[..m]) == w
    decreases m
  {
    if m > 0 {
      CycleStep(w, tasks, m - 1, t => t);
      WatermarkNoneEligible(w, tasks, m - 1);
    } else {
      assert tasks[..0] == [];
    }
  }

  /** A cycle in which no task is eligible leaves the watermark unchanged. */
  lemma WatermarkUnchangedIfNoneEligible(w: int, tasks: seq<Task>)
    requires forall j :: 0 <= j < |tasks| ==> !Eligible(w, tasks, j)
    ensures Watermark(w, tasks) == w
  {
    WatermarkNoneEligible(w, tasks, |tasks|);
    assert tasks[..|tasks|] == tasks;
  }

  /** A call on task `e.taskId` is in the log of a cycle exactly when some task with that id
      is eligible and its edit changes it. */
  lemma CallInCycle(w: int, tasks: seq<Task>, edit: Task -> Task, e: Event)
    ensures e in CycleEvents(w, tasks, edit)
            <==> exists i :: 0 <= i < |tasks| && tasks[i].id == e.taskId && Eligible(w, tasks, i)
                             && edit(tasks[i]) != tasks[i]
  {
    if e in CycleEvents(w, tasks, edit) {
      CallInCycleHasCause(w, tasks, edit, e);
    }
    forall i | 0 <= i < |tasks| && tasks[i].id == e.taskId && Eligible(w, tasks, i) && edit(tasks[i]) != tasks[i]
      ensures e in CycleEvents(w, tasks, edit)
    {
      CauseHasCall(w, tasks, edit, e, i);
    }
  }

  /** Task `i` agrees on eligibility with its copy in a longer list. */
  lemma EligiblePrefix(w: int, tasks: seq<Task>, m: nat, i: nat)
    requires i < m <= |tasks|
    ensures tasks[..m][i] == tasks[i]
    ensures Eligible(w, tasks[..m], i) == Eligible(w, tasks, i)
  {
    assert tasks[..m][..i] == tasks[..i];
  }

  lemma {:induction false} CallInCycleHasCause(w: int, tasks: seq<Task>, edit: Task -> Task, e: Event)
    requires e in CycleEvents(w, tasks, edit)
    ensures exists i :: 0 <= i < |tasks| && tasks[i].id == e.taskId && Eligible(w, tasks, i)
                        && edit(tasks[i]) != tasks[i]
    decreases |tasks|
  {
    var n := |tasks| - 1;
    var init := tasks[..n];
    if e in CycleEvents(w, init, edit) {
      CallInCycleHasCause(w, init, edit, e);
      var i :| 0 <= i < n && init[i].id == e.taskId && Eligible(w, init, i) && edit(init[i]) != init[i];
      EligiblePrefix(w, tasks, n, i);
    } else {
      assert Eligible(w, tasks, n);
    }
  }

  lemma {:induction false} CauseHasCall(w: int, tasks: seq<Task>, edit: Task -> Task, e: Event, i: nat)
    requires i < |tasks| && tasks[i].id == e.taskId && Eligible(w, tasks, i) && edit(tasks[i]) != tasks[i]
    ensures e in CycleEvents(w, tasks, edit)
    decreases |tasks|
  {
    var n := |tasks| - 1;
    var init := tasks[..n];
    if i < n {
      EligiblePrefix(w, tasks, n, i);
      CauseHasCall(w, init, edit, e, i);
    }
  }

  /** A task is written and commented on exactly when it is eligible and its edit changes it. */
  lemma PublishedIff(w: int, tasks: seq<Task>, edit: Task -> Task, id: string)
    ensures Write(id) in CycleEvents(w, tasks, edit)
            <==> exists i :: 0 <= i < |tasks| && tasks[i].id == id && Eligible(w, tasks, i)
                             && edit(tasks[i]) != tasks[i]
    ensures Comment(id) in CycleEvents(w, tasks, edit)
            <==> exists i :: 0 <= i < |tasks| && tasks[i].id == id && Eligible(w, tasks, i)
                             && edit(tasks[i]) != tasks[i]
  {
    CallInCycle(w, tasks, edit, Write(id));
    CallInCycle(w, tasks, edit, Comment(id));
  }

  lemma {:induction false} PairedAppend(a: seq<Event>, b: seq<Event>)
    requires Paired(a) && Paired(b)
    ensures Paired(a + b)
    decreases |a|
  {
    if a != [] {
      assert (a + b)[2..] == a[2..] + b;
      PairedAppend(a[2..], b);
    } else {
      assert a + b == b;
    }
  }

  /** In the log of a cycle every write is followed at once by the comment on the same task. */
  lemma {:induction false} CycleEventsPaired(w: int, tasks: seq<Task>, edit: Task -> Task)
    ensures Paired(CycleEvents(w, tasks, edit))
    decreases |tasks|
  {
    if tasks != [] {
      var init := tasks[..|tasks| - 1];
      CycleEventsPaired(w, init, edit);
      var p := Publish(tasks[|tasks| - 1], edit, Watermark(w, init));
      assert p != [] ==> p[2..] == [];
      PairedAppend(CycleEvents(w, init, edit), p);
    }
  }

  /** A second cycle over the same tasks leaves the watermark where the first one put it. */
  lemma WatermarkStable(w: int, tasks: seq<Task>)
    ensures Watermark(Watermark(w, tasks), tasks) == Watermark(w, tasks)
  {
    WatermarkIsMax(w, tasks);
    WatermarkIsMax(Watermark(w, tasks), tasks);
  }

  /** One more cycle of `run`: its watermark and its calls extend those of the cycles before. */
  lemma RunStep(w: int, tasks: seq<Task>, edit: Task -> Task, c: nat,
                log0: seq<Event>, before: seq<Event>, after: seq<Event>, wb: int, wa: int)
    requires wb == RunWatermark(w, tasks, c) && before == log0 + RunEvents(w, tasks, edit, c)
    requires wa == Watermark(wb, tasks) && after == before + CycleEvents(wb, tasks, edit)
    ensures wa == RunWatermark(w, tasks, c + 1)
    ensures after == log0 + RunEvents(w, tasks, edit, c + 1)
  {
  }

  /** From the second cycle on the watermark no longer moves and every cycle repeats the
      calls of the second. */
  lemma {:induction false} RunSettles(w: int, tasks: seq<Task>, edit: Task -> Task, n: nat)
    requires n > 0
    ensures RunWatermark(w, tasks, n) == Watermark(w, tasks)
    ensures RunEvents(w, tasks, edit, n)
            == CycleEvents(w, tasks, edit) + Repeat(CycleEvents(Watermark(w, tasks), tasks, edit), n - 1)
  {
    if n > 1 {
      RunSettles(w, tasks, edit, n - 1);
      WatermarkStable(w, tasks);
    }
  }

  /** The watermark never moves back, however many cycles run. */
  lemma {:induction false} RunWatermarkMonotone(w: int, tasks: seq<Task>, m: nat, n: nat)
    requires m <= n
    ensures RunWatermark(w, tasks, m) <= RunWatermark(w, tasks, n)
    decreases n
  {
    if m < n {
      RunWatermarkMonotone(w, tasks, m, n - 1);
      WatermarkIsMax(RunWatermark(w, tasks, n - 1), tasks);
    }
  }

  /** In the log of any number of cycles every write is followed at once by its comment. */
  lemma {:induction false} RunEventsPaired(w: int, tasks: seq<Task>, edit: Task -> Task, n: nat)
    ensures Paired(RunEvents(w, tasks, edit, n))
    decreases n
  {
    if n > 0 {
      RunEventsPaired(w, tasks, edit, n - 1);
      CycleEventsPaired(RunWatermark(w, tasks, n - 1), tasks, edit);
      PairedAppend(RunEvents(w, tasks, edit, n - 1), CycleEvents(RunWatermark(w, tasks, n - 1), tasks, edit));
    }
  }

  /** Once a cycle has passed over the tasks, a task is eligible in the next cycle exactly when
      it was created at the watermark itself: the comparison is `>=` on creation times, which a
      write-back does not change, and the task list is not fetched again. */
  lemma LaterCycleEligible(w: int, tasks: seq<Task>, i: nat)
    requires i < |tasks|
    ensures Eligible(Watermark(w, tasks), tasks, i) <==> tasks[i].dateCreated == Watermark(w, tasks)
  {
    var m := Watermark(w, tasks);
    WatermarkIsMax(w, tasks);
    WatermarkIsMax(m, tasks[..i]);
  }

  /** A task created at the watermark that the editor changes is written and commented on
      again in the cycle after the first, and by `RunSettles` in every later one. */
  lemma RepublishedInLaterCycles(w: int, tasks: seq<Task>, edit: Task -> Task, i: nat)
    requires i < |tasks| && tasks[i].dateCreated == Watermark(w, tasks) && edit(tasks[i]) != tasks[i]
    ensures Write(tasks[i].id) in CycleEvents(Watermark(w, tasks), tasks, edit)
    ensures Comment(tasks[i].id) in CycleEvents(Watermark(w, tasks), tasks, edit)
  {
    LaterCycleEligible(w, tasks, i);
    CauseHasCall(Watermark(w, tasks), tasks, edit, Write(tasks[i].id), i);
    CauseHasCall(Watermark(w, tasks), tasks, edit, Comment(tasks[i].id), i);
  }
}
