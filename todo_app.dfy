/**
 * The TodoApp component's state as an object: the task list and the single
 * running-timer id, replaced step by step by the five handlers and by the
 * once-per-second tick of the task-timer interval.
 */
module TodoAppState {
  import opened Wrappers
  import opened TaskList
  import opened TaskListFacts

  /** The statistics panel: active, completed and total counts, time spent, progress. */
  datatype Stats = Stats(active: nat, completed: nat, total: nat, timeSpent: nat, progress: nat)

  class TodoApp {
    var tasks: seq<Task>
    var activeTimer: Option<TaskId>

    /** Ids stay unique, so one activeTimer value can name at most one task. */
    ghost predicate Valid()
      reads this
    {
      UniqueIds(tasks)
    }

    /** useState([]) and useState(null). */
    constructor ()
      ensures Valid()
      ensures tasks == [] && activeTimer == None
    {
      tasks := [];
      activeTimer := None;
    }

    /** addTask with the typed input; `id` stands for the fresh Date.now() value. */
    method AddTask(id: TaskId, input: string)
      requires Valid() && !HasId(tasks, id)
      modifies this
      ensures Valid()
      ensures tasks == TaskList.AddTask(old(tasks), id, input)
      ensures activeTimer == old(activeTimer)
      ensures TimerOnOpenTask(old(tasks), old(activeTimer)) ==> TimerOnOpenTask(tasks, activeTimer)
    {
      AddKeepsUnique(tasks, id, input);
      if TimerOnOpenTask(tasks, activeTimer) {
        AddKeepsTimerOnOpenTask(tasks, activeTimer, id, input);
      }
      tasks := TaskList.AddTask(tasks, id, input);
    }

    method ToggleTask(id: TaskId)
      requires Valid()
      modifies this
      ensures Valid()
      ensures tasks == ToggleCompleted(old(tasks), id)
      ensures activeTimer == StopIf(old(activeTimer), id)
      ensures TimerOnOpenTask(old(tasks), old(activeTimer)) ==> TimerOnOpenTask(tasks, activeTimer)
    {
      UpdateKeepsUnique(tasks, ToggleCompleted(tasks, id));
      if TimerOnOpenTask(tasks, activeTimer) {
        ToggleKeepsTimerOnOpenTask(tasks, activeTimer, id);
      }
      tasks := ToggleCompleted(tasks, id);
      if activeTimer == Some(id) {
        activeTimer := None;
      }
    }

    method DeleteTask(id: TaskId)
      requires Valid()
      modifies this
      ensures Valid()
      ensures tasks == TaskList.DeleteTask(old(tasks), id)
      ensures activeTimer == StopIf(old(activeTimer), id)
      ensures TimerOnOpenTask(old(tasks), old(activeTimer)) ==> TimerOnOpenTask(tasks, activeTimer)
    {
      DeleteKeepsUnique(tasks, id);
      if TimerOnOpenTask(tasks, activeTimer) {
        DeleteKeepsTimerOnOpenTask(tasks, activeTimer, id);
      }
      tasks := TaskList.DeleteTask(tasks, id);
      if activeTimer == Some(id) {
        activeTimer := None;
      }
    }

    /** Pause the running task, or start this one in the single slot, stopping any other. */
    method ToggleTimer(id: TaskId)
      requires Valid()
      modifies this
      ensures Valid()
      ensures tasks == old(tasks)
      ensures activeTimer == TaskList.ToggleTimer(old(activeTimer), id)
      ensures TimerOnOpenTask(old(tasks), old(activeTimer)) &&
        (exists k :: 0 <= k < |tasks| && tasks[k].id == id && !tasks[k].completed)
        ==> TimerOnOpenTask(tasks, activeTimer)
    {
      if activeTimer == Some(id) {
        activeTimer := None;
      } else {
        activeTimer := Some(id);
      }
    }

    method ResetTimer(id: TaskId)
      requires Valid()
      modifies this
      ensures Valid()
      ensures tasks == ResetTime(old(tasks), id)
      ensures activeTimer == StopIf(old(activeTimer), id)
      ensures TimerOnOpenTask(old(tasks), old(activeTimer)) ==> TimerOnOpenTask(tasks, activeTimer)
    {
      UpdateKeepsUnique(tasks, ResetTime(tasks, id));
      if TimerOnOpenTask(tasks, activeTimer) {
        ResetKeepsTimerOnOpenTask(tasks, activeTimer, id);
      }
      tasks := ResetTime(tasks, id);
      if activeTimer == Some(id) {
        activeTimer := None;
      }
    }

    /** One firing of the one-second task-timer interval. */
    method Tick()
      requires Valid()
      modifies this
      ensures Valid()
      ensures tasks == TaskList.Tick(old(tasks), old(activeTimer))
      ensures activeTimer == old(activeTimer)
      ensures |tasks| == |old(tasks)|
      ensures forall i, j :: (0 <= i < |tasks| && 0 <= j < |tasks| &&
        tasks[i] != old(tasks)[i] && tasks[j] != old(tasks)[j]) ==> i == j
      ensures TotalTimeSpent(tasks) >= TotalTimeSpent(old(tasks))
      ensures TimerOnOpenTask(old(tasks), old(activeTimer)) ==> TimerOnOpenTask(tasks, activeTimer)
    {
      var before := tasks;
      var after := TaskList.Tick(tasks, activeTimer);
      forall i, j | 0 <= i < |after| && 0 <= j < |after| && after[i] != before[i] && after[j] != before[j]
        ensures i == j
      {
        AtMostOneAccrues(before, activeTimer, i, j);
      }
      UpdateKeepsUnique(before, after);
      TickTotalTime(before, activeTimer);
      if TimerOnOpenTask(before, activeTimer) {
        TickKeepsTimerOnOpenTask(before, activeTimer);
      }
      tasks := after;
    }

    /** The header statistics computed from the current list on every render. */
    function Statistics(): (s: Stats)
      reads this
      ensures s.active + s.completed == s.total && s.total == |tasks|
      ensures s.progress <= 100
      ensures s.total == 0 ==> s.progress == 0 && s.timeSpent == 0
    {
      Stats(ActiveCount(tasks), CompletedCount(tasks), TotalCount(tasks), TotalTimeSpent(tasks), Progress(tasks))
    }
  }
}
