/**
 * What the handlers, the tick and the statistics of the task list promise,
 * stated over the list transforms of module TaskList.
 */
module TaskListFacts {
  import opened Wrappers
  import opened Text
  import opened TaskList

  // ---------------------------------------------------------------------
  // Single handlers

  /** Toggling a task twice gives back the list it started from. */
  lemma ToggleTwiceRestores(tasks: seq<Task>, id: TaskId)
    ensures ToggleCompleted(ToggleCompleted(tasks, id), id) == tasks
  {
    var r := ToggleCompleted(ToggleCompleted(tasks, id), id);
    forall k | 0 <= k < |tasks| ensures r[k] == tasks[k] {
      assert r[k].completed == tasks[k].completed;
    }
  }

  /** A second resetTimer on the same id changes nothing, running timer included. */
  lemma ResetIdempotent(tasks: seq<Task>, activeTimer: Option<TaskId>, id: TaskId)
    ensures ResetTime(ResetTime(tasks, id), id) == ResetTime(tasks, id)
    ensures StopIf(StopIf(activeTimer, id), id) == StopIf(activeTimer, id)
  {
    var once := ResetTime(tasks, id);
    var twice := ResetTime(once, id);
    forall k | 0 <= k < |tasks| ensures twice[k] == once[k] {
      assert twice[k].timeSpent == once[k].timeSpent;
    }
  }

  /** deleteTask filters segment by segment, so the survivors keep their relative order. */
  lemma {:induction false} DeleteDistributes(a: seq<Task>, b: seq<Task>, id: TaskId)
    ensures DeleteTask(a + b, id) == DeleteTask(a, id) + DeleteTask(b, id)
  {
    if a == [] {
      assert a + b == b;
    } else {
      var h, t := a[0], a[1..];
      var keep := if h.id == id then [] else [h];
      HeadTail(a);
      AppendAssoc([h], t, b);
      DeleteDistributes(t, b, id);
      DeleteCons(h, t + b, id);
      DeleteCons(h, t, id);
      AppendAssoc(keep, DeleteTask(t, id), DeleteTask(b, id));
    }
  }

  /** One step of deleteTask's filter: the head is kept or dropped, the rest is filtered. */
  lemma DeleteCons(x: Task, s: seq<Task>, id: TaskId)
    ensures DeleteTask([x] + s, id) == (if x.id == id then [] else [x]) + DeleteTask(s, id)
  {
    var c := [x] + s;
    assert c[0] == x;
    assert c[1..] == s;
  }

  lemma AppendAssoc(x: seq<Task>, y: seq<Task>, z: seq<Task>)
    ensures (x + y) + z == x + (y + z)
  {
  }

  lemma HeadTail(a: seq<Task>)
    requires a != []
    ensures a == [a[0]] + a[1..]
  {
  }

  /** deleteTask keeps a task iff it was in the list and does not carry the id. */
  lemma {:induction false} DeleteMembers(tasks: seq<Task>, id: TaskId)
    ensures forall t :: t in DeleteTask(tasks, id) <==> t in tasks && t.id != id
  {
    if tasks != [] {
      DeleteMembers(tasks[1..], id);
      assert tasks == [tasks[0]] + tasks[1..];
    }
  }

  /** A task is dropped by deleteTask exactly when it carries the id. */
  lemma DeleteSingle(t: Task, id: TaskId)
    ensures DeleteTask([t], id) == if t.id == id then [] else [t]
  {
    assert [t][1..] == [];
  }

  /** deleteTask with an id no task carries is a no-op. */
  lemma {:induction false} DeleteUnknownId(tasks: seq<Task>, id: TaskId)
    requires !HasId(tasks, id)
    ensures DeleteTask(tasks, id) == tasks
  {
    if tasks != [] {
      assert tasks[0].id != id;
      assert !HasId(tasks[1..], id) by {
        forall k | 0 <= k < |tasks[1..]| ensures tasks[1..][k].id != id {
          assert tasks[1..][k] == tasks[k + 1];
        }
      }
      DeleteUnknownId(tasks[1..], id);
      assert tasks == [tasks[0]] + tasks[1..];
    }
  }

  /** With unique ids, deleting a present id removes exactly one task. */
  lemma DeleteRemovesOne(tasks: seq<Task>, k: nat)
    requires UniqueIds(tasks) && k < |tasks|
    ensures |DeleteTask(tasks, tasks[k].id)| == |tasks| - 1
  {
    UniqueOccurrences(tasks, k);
  }

  /** toggleTimer(a) then toggleTimer(b) for another task leaves b running and a stopped. */
  lemma SwitchTimer(activeTimer: Option<TaskId>, a: TaskId, b: TaskId)
    requires a != b
    ensures ToggleTimer(ToggleTimer(activeTimer, a), b) == Some(b)
  {
  }

  /** Pressing the timer button twice from idle stops it again. */
  lemma ToggleTimerTwice(a: TaskId)
    ensures ToggleTimer(ToggleTimer(None, a), a) == None
  {
  }

  // ---------------------------------------------------------------------
  // Unique ids are kept by every handler

  lemma UpdateKeepsUnique(tasks: seq<Task>, r: seq<Task>)
    requires UniqueIds(tasks) && |r| == |tasks|
    requires forall k :: 0 <= k < |tasks| ==> r[k].id == tasks[k].id
    ensures UniqueIds(r)
  {
  }

  lemma AddKeepsUnique(tasks: seq<Task>, id: TaskId, input: string)
    requires UniqueIds(tasks) && !HasId(tasks, id)
    ensures UniqueIds(AddTask(tasks, id, input))
  {
    var r := AddTask(tasks, id, input);
    if !AllWhitespace(input) {
      forall i, j | 0 <= i < j < |r| ensures r[i].id != r[j].id {
        if j < |tasks| {
          assert r[i] == r[..|tasks|][i] && r[j] == r[..|tasks|][j];
        } else {
          assert r[i] == r[..|tasks|][i];
        }
      }
    }
  }

  lemma UniqueSplit(tasks: seq<Task>)
    requires UniqueIds(tasks) && tasks != []
    ensures UniqueIds(tasks[1..])
    ensures forall u :: u in tasks[1..] ==> u.id != tasks[0].id
  {
    var rest := tasks[1..];
    forall i, j | 0 <= i < j < |rest| ensures rest[i].id != rest[j].id {
      assert rest[i] == tasks[i + 1] && rest[j] == tasks[j + 1];
    }
    forall u | u in rest ensures u.id != tasks[0].id {
      var m :| 0 <= m < |rest| && rest[m] == u;
      assert tasks[m + 1] == u;
    }
  }

  lemma UniqueCons(t: Task, rest: seq<Task>)
    requires UniqueIds(rest)
    requires forall u :: u in rest ==> u.id != t.id
    ensures UniqueIds([t] + rest)
  {
    var r := [t] + rest;
    forall i, j | 0 <= i < j < |r| ensures r[i].id != r[j].id {
      assert r[j] == rest[j - 1];
      if i > 0 {
        assert r[i] == rest[i - 1];
      }
    }
  }

  lemma {:induction false} DeleteKeepsUnique(tasks: seq<Task>, id: TaskId)
    requires UniqueIds(tasks)
    ensures UniqueIds(DeleteTask(tasks, id))
  {
    if tasks != [] {
      UniqueSplit(tasks);
      DeleteKeepsUnique(tasks[1..], id);
      if tasks[0].id != id {
        DeleteMembers(tasks[1..], id);
        UniqueCons(tasks[0], DeleteTask(tasks[1..], id));
      }
    }
  }

  // ---------------------------------------------------------------------
  // The tick

  /** Only tasks carrying the running timer's id change on a tick, and only their timeSpent, by one. */
  lemma TickTouchesOnlyActive(tasks: seq<Task>, activeTimer: Option<TaskId>, k: nat)
    requires k < |tasks|
    ensures |Tick(tasks, activeTimer)| == |tasks|
    ensures Tick(tasks, activeTimer)[k] ==
      if activeTimer == Some(tasks[k].id) then tasks[k].(timeSpent := tasks[k].timeSpent + 1)
      else tasks[k]
  {
  }

  /** Because the running timer is a single id, at most one task of a list with unique ids accrues time. */
  lemma AtMostOneAccrues(tasks: seq<Task>, activeTimer: Option<TaskId>, i: nat, j: nat)
    requires UniqueIds(tasks) && i < |tasks| && j < |tasks|
    requires Tick(tasks, activeTimer)[i] != tasks[i]
    requires Tick(tasks, activeTimer)[j] != tasks[j]
    ensures i == j
  {
    TickTouchesOnlyActive(tasks, activeTimer, i);
    TickTouchesOnlyActive(tasks, activeTimer, j);
  }

  /** The tick does not look at `completed`: a completed task under the running timer still accrues. */
  lemma TickIgnoresCompletion()
    ensures Tick([Task(1, "done", true, 5)], Some(1)) == [Task(1, "done", true, 6)]
  {
    var r := Tick([Task(1, "done", true, 5)], Some(1));
    assert r[0] == Task(1, "done", true, 6);
  }

  /** N ticks with no intervening command. */
  function Ticks(tasks: seq<Task>, activeTimer: Option<TaskId>, n: nat): (r: seq<Task>)
    ensures |r| == |tasks|
  {
    if n == 0 then tasks else Tick(Ticks(tasks, activeTimer, n - 1), activeTimer)
  }

  /** N ticks add exactly N seconds to the task under the running timer and nothing to any other task. */
  lemma {:induction false} TicksAccumulate(tasks: seq<Task>, activeTimer: Option<TaskId>, n: nat)
    ensures |Ticks(tasks, activeTimer, n)| == |tasks|
    ensures forall k :: 0 <= k < |tasks| ==>
      Ticks(tasks, activeTimer, n)[k] == tasks[k].(timeSpent :=
        tasks[k].timeSpent + (if activeTimer == Some(tasks[k].id) then n else 0))
  {
    if n > 0 {
      TicksAccumulate(tasks, activeTimer, n - 1);
      var before := Ticks(tasks, activeTimer, n - 1);
      forall k | 0 <= k < |tasks|
        ensures Ticks(tasks, activeTimer, n)[k] == tasks[k].(timeSpent :=
          tasks[k].timeSpent + (if activeTimer == Some(tasks[k].id) then n else 0))
      {
        TickOneMore(before, activeTimer, tasks[k], n - 1, k);
      }
    }
  }

  /** One more tick on a task that has accrued `m` ticks so far gives `m + 1` of them. */
  lemma TickOneMore(before: seq<Task>, activeTimer: Option<TaskId>, t: Task, m: nat, k: nat)
    requires k < |before|
    requires before[k] == t.(timeSpent := t.timeSpent + (if activeTimer == Some(t.id) then m else 0))
    ensures Tick(before, activeTimer)[k] ==
      t.(timeSpent := t.timeSpent + (if activeTimer == Some(t.id) then m + 1 else 0))
  {
    TickTouchesOnlyActive(before, activeTimer, k);
  }

  // ---------------------------------------------------------------------
  // Statistics

  lemma {:induction false} TotalTimeAppend(a: seq<Task>, b: seq<Task>)
    ensures TotalTimeSpent(a + b) == TotalTimeSpent(a) + TotalTimeSpent(b)
  {
    if a == [] {
      assert a + b == b;
    } else {
      assert (a + b)[1..] == a[1..] + b;
      TotalTimeAppend(a[1..], b);
    }
  }

  lemma {:induction false} CountsAppend(a: seq<Task>, b: seq<Task>)
    ensures CompletedCount(a + b) == CompletedCount(a) + CompletedCount(b)
    ensures ActiveCount(a + b) == ActiveCount(a) + ActiveCount(b)
  {
    if a == [] {
      assert a + b == b;
    } else {
      assert (a + b)[1..] == a[1..] + b;
      CountsAppend(a[1..], b);
    }
  }

  /** A tick on `id` adds one second of total time per task carrying `id`. */
  lemma {:induction false} TotalTimeAfterAdvance(tasks: seq<Task>, id: TaskId)
    ensures TotalTimeSpent(AdvanceTime(tasks, id)) == TotalTimeSpent(tasks) + Occurrences(tasks, id)
  {
    if tasks != [] {
      var r := AdvanceTime(tasks, id);
      assert r[1..] == AdvanceTime(tasks[1..], id);
      TotalTimeAfterAdvance(tasks[1..], id);
    }
  }

  /** Total time never decreases across a tick; with unique ids it grows by one exactly when the running timer names a task. */
  lemma TickTotalTime(tasks: seq<Task>, activeTimer: Option<TaskId>)
    ensures TotalTimeSpent(Tick(tasks, activeTimer)) >= TotalTimeSpent(tasks)
    ensures UniqueIds(tasks) ==>
      TotalTimeSpent(Tick(tasks, activeTimer)) == TotalTimeSpent(tasks) +
        (if activeTimer.Some? && HasId(tasks, activeTimer.value) then 1 else 0)
  {
    if activeTimer.Some? {
      var id := activeTimer.value;
      TotalTimeAfterAdvance(tasks, id);
      NoOccurrencesIff(tasks, id);
      if UniqueIds(tasks) && HasId(tasks, id) {
        var k :| 0 <= k < |tasks| && tasks[k].id == id;
        UniqueOccurrences(tasks, k);
      }
    }
  }

  /** Adding a task grows the total and the active count by one and leaves completed and time alone. */
  lemma AddTaskStatistics(tasks: seq<Task>, id: TaskId, input: string)
    requires !AllWhitespace(input)
    ensures TotalCount(AddTask(tasks, id, input)) == TotalCount(tasks) + 1
    ensures ActiveCount(AddTask(tasks, id, input)) == ActiveCount(tasks) + 1
    ensures CompletedCount(AddTask(tasks, id, input)) == CompletedCount(tasks)
    ensures TotalTimeSpent(AddTask(tasks, id, input)) == TotalTimeSpent(tasks)
  {
    var t := Task(id, Trim(input), false, 0);
    var r := AddTask(tasks, id, input);
    assert r == tasks + [t] by {
      assert r == r[..|tasks|] + [r[|tasks|]];
    }
    CountsAppend(tasks, [t]);
    TotalTimeAppend(tasks, [t]);
    assert [t][1..] == [];
  }

  /** Progress is 100 when every task is completed and 0 when none is. */
  lemma ProgressExtremes(tasks: seq<Task>)
    requires |tasks| > 0
    ensures CompletedCount(tasks) == |tasks| ==> Progress(tasks) == 100
    ensures CompletedCount(tasks) == 0 ==> Progress(tasks) == 0
  {
    var t := |tasks|;
    if CompletedCount(tasks) == t {
      PercentOfAll(t);
    }
    if CompletedCount(tasks) == 0 {
      PercentOfNone(t);
    }
  }

  lemma PercentOfAll(t: nat)
    requires 0 < t
    ensures Percent(t, t) == 100
  {
    var p := Percent(t, t);
    assert 2 * t * p == t * (2 * p);
    assert 2 * t * (p + 1) == t * (2 * p + 2);
    ScaledAtMost(t, 2 * p, 201);
    ScaledLess(t, 201, 2 * p + 2);
  }

  lemma PercentOfNone(t: nat)
    requires 0 < t
    ensures Percent(0, t) == 0
  {
    var p := Percent(0, t);
    assert 2 * t * p == t * (2 * p);
    ScaledAtMost(t, 2 * p, 1);
  }

  lemma ScaledLess(t: nat, a: nat, b: nat)
    requires t * a < t * b
    ensures a < b
  {
    if b <= a {
      MulMonotone(t, b, a);
    }
  }

  lemma ScaledAtMost(t: nat, a: nat, b: nat)
    requires 0 < t && t * a <= t * b
    ensures a <= b
  {
    if b < a {
      MulMonotone(t, b + 1, a);
    }
  }

  lemma MulMonotone(t: nat, a: nat, b: nat)
    requires a <= b
    ensures t * a <= t * b
  {
  }

  // ---------------------------------------------------------------------
  // The running timer is on an open task

  /**
   * The timer is idle or names a task of the list that is not completed.
   * The handlers keep this only because the rendering offers the timer
   * button on open tasks alone; toggleTimer itself does not check.
   */
  predicate TimerOnOpenTask(tasks: seq<Task>, activeTimer: Option<TaskId>) {
    match activeTimer
    case None => true
    case Some(id) => exists k :: 0 <= k < |tasks| && tasks[k].id == id && !tasks[k].completed
  }

  /** While the timer runs on an open task, `find` locates it and the "Working on" panel shows an open task. */
  lemma OpenTimerIsShown(tasks: seq<Task>, activeTimer: Option<TaskId>)
    requires TimerOnOpenTask(tasks, activeTimer) && activeTimer.Some?
    requires UniqueIds(tasks)
    ensures ActiveTask(tasks, activeTimer).Some?
    ensures !ActiveTask(tasks, activeTimer).value.completed
  {
    var k :| 0 <= k < |tasks| && tasks[k].id == activeTimer.value && !tasks[k].completed;
    assert HasId(tasks, activeTimer.value);
  }

  lemma AddKeepsTimerOnOpenTask(tasks: seq<Task>, activeTimer: Option<TaskId>, id: TaskId, input: string)
    requires TimerOnOpenTask(tasks, activeTimer)
    ensures TimerOnOpenTask(AddTask(tasks, id, input), activeTimer)
  {
    if activeTimer.Some? && !AllWhitespace(input) {
      var k :| 0 <= k < |tasks| && tasks[k].id == activeTimer.value && !tasks[k].completed;
      var r := AddTask(tasks, id, input);
      assert r[k] == r[..|tasks|][k];
    }
  }

  lemma ToggleKeepsTimerOnOpenTask(tasks: seq<Task>, activeTimer: Option<TaskId>, id: TaskId)
    requires TimerOnOpenTask(tasks, activeTimer)
    ensures TimerOnOpenTask(ToggleCompleted(tasks, id), StopIf(activeTimer, id))
  {
    if StopIf(activeTimer, id).Some? {
      var k :| 0 <= k < |tasks| && tasks[k].id == activeTimer.value && !tasks[k].completed;
      assert ToggleCompleted(tasks, id)[k].id == activeTimer.value;
    }
  }

  lemma DeleteKeepsTimerOnOpenTask(tasks: seq<Task>, activeTimer: Option<TaskId>, id: TaskId)
    requires TimerOnOpenTask(tasks, activeTimer)
    ensures TimerOnOpenTask(DeleteTask(tasks, id), StopIf(activeTimer, id))
  {
    if StopIf(activeTimer, id).Some? {
      var k :| 0 <= k < |tasks| && tasks[k].id == activeTimer.value && !tasks[k].completed;
      var r := DeleteTask(tasks, id);
      DeleteMembers(tasks, id);
      assert tasks[k] in r;
      var m :| 0 <= m < |r| && r[m] == tasks[k];
    }
  }

  lemma ResetKeepsTimerOnOpenTask(tasks: seq<Task>, activeTimer: Option<TaskId>, id: TaskId)
    requires TimerOnOpenTask(tasks, activeTimer)
    ensures TimerOnOpenTask(ResetTime(tasks, id), StopIf(activeTimer, id))
  {
    if StopIf(activeTimer, id).Some? {
      var k :| 0 <= k < |tasks| && tasks[k].id == activeTimer.value && !tasks[k].completed;
      assert ResetTime(tasks, id)[k].id == activeTimer.value;
    }
  }

  lemma TickKeepsTimerOnOpenTask(tasks: seq<Task>, activeTimer: Option<TaskId>)
    requires TimerOnOpenTask(tasks, activeTimer)
    ensures TimerOnOpenTask(Tick(tasks, activeTimer), activeTimer)
  {
    if activeTimer.Some? {
      var k :| 0 <= k < |tasks| && tasks[k].id == activeTimer.value && !tasks[k].completed;
      TickTouchesOnlyActive(tasks, activeTimer, k);
    }
  }

  /** toggleTimer keeps the running timer on an open task when it is pressed on an open task, as the rendering allows. */
  lemma ToggleTimerKeepsTimerOnOpenTask(tasks: seq<Task>, activeTimer: Option<TaskId>, k: nat)
    requires TimerOnOpenTask(tasks, activeTimer)
    requires k < |tasks| && !tasks[k].completed
    ensures TimerOnOpenTask(tasks, ToggleTimer(activeTimer, tasks[k].id))
  {
  }

  /** Pressed on a completed task, toggleTimer breaks the property: the code itself does not guard it. */
  lemma ToggleTimerOnCompletedTask()
    ensures !TimerOnOpenTask([Task(1, "done", true, 0)], ToggleTimer(None, 1))
  {
  }
}
