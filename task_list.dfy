/**
 * The task list of the TodoApp component as values: the records, the
 * list transforms its handlers build with map, filter and spread, the
 * once-per-second tick, and the statistics derived from the list.
 */
module TaskList {
  import opened Wrappers
  import opened Text

  /** Ids come from Date.now(), a positive millisecond count, so a present id is always truthy. */
  type TaskId = i: int | i > 0 witness 1

  /** One task record; the creation timestamp is not modelled. */
  datatype Task = Task(id: TaskId, text: string, completed: bool, timeSpent: nat)

  /** No two tasks share an id. */
  predicate UniqueIds(tasks: seq<Task>) {
    forall i, j :: 0 <= i < j < |tasks| ==> tasks[i].id != tasks[j].id
  }

  predicate HasId(tasks: seq<Task>, id: TaskId) {
    exists k :: 0 <= k < |tasks| && tasks[k].id == id
  }

  /** Number of tasks carrying the given id. */
  function Occurrences(tasks: seq<Task>, id: TaskId): (n: nat)
    ensures n <= |tasks|
  {
    if tasks == [] then 0 else (if tasks[0].id == id then 1 else 0) + Occurrences(tasks[1..], id)
  }

  /** An id occurs zero times exactly when no task carries it. */
  lemma {:induction false} NoOccurrencesIff(tasks: seq<Task>, id: TaskId)
    ensures Occurrences(tasks, id) == 0 <==> !HasId(tasks, id)
  {
    if tasks != [] {
      NoOccurrencesIff(tasks[1..], id);
      if HasId(tasks, id) {
        var k :| 0 <= k < |tasks| && tasks[k].id == id;
        if k > 0 {
          assert tasks[1..][k - 1].id == id;
        }
      }
      if HasId(tasks[1..], id) {
        var k :| 0 <= k < |tasks[1..]| && tasks[1..][k].id == id;
        assert tasks[k + 1].id == id;
      }
    }
  }

  lemma UniqueOccurrences(tasks: seq<Task>, k: nat)
    requires UniqueIds(tasks) && k < |tasks|
    ensures Occurrences(tasks, tasks[k].id) == 1
  {
    if k == 0 {
      NoOccurrencesIff(tasks[1..], tasks[0].id);
      forall j | 0 <= j < |tasks[1..]| ensures tasks[1..][j].id != tasks[0].id {
        assert tasks[1..][j] == tasks[j + 1];
      }
    } else {
      UniqueOccurrences(tasks[1..], k - 1);
    }
  }

  // ---------------------------------------------------------------------
  // The `tasks.map(task => task.id === id ? {...task, ...} : task)` pattern

  /** Applies f to exactly the tasks whose id is `id`, keeping order and length. */
  function UpdateMatching(tasks: seq<Task>, id: TaskId, f: Task -> Task): (r: seq<Task>)
    ensures |r| == |tasks|
    ensures forall k :: 0 <= k < |tasks| ==>
      r[k] == (if tasks[k].id == id then f(tasks[k]) else tasks[k])
  {
    if tasks == [] then []
    else [if tasks[0].id == id then f(tasks[0]) else tasks[0]] + UpdateMatching(tasks[1..], id, f)
  }

  /** `{ ...task, completed: !task.completed }`: only `completed` changes, to its negation. */
  function Flip(t: Task): (r: Task)
    ensures r.id == t.id && r.text == t.text && r.timeSpent == t.timeSpent && r.completed == !t.completed
  {
    t.(completed := !t.completed)
  }

  /** `{ ...task, timeSpent: 0 }`: only `timeSpent` changes, to zero. */
  function Zeroed(t: Task): (r: Task)
    ensures r.id == t.id && r.text == t.text && r.completed == t.completed && r.timeSpent == 0
  {
    t.(timeSpent := 0)
  }

  /** `{ ...task, timeSpent: task.timeSpent + 1 }`: only `timeSpent` changes, by one. */
  function Advanced(t: Task): (r: Task)
    ensures r.id == t.id && r.text == t.text && r.completed == t.completed && r.timeSpent == t.timeSpent + 1
  {
    t.(timeSpent := t.timeSpent + 1)
  }

  /** toggleTask's new list: only `completed` of the matching tasks changes. */
  function ToggleCompleted(tasks: seq<Task>, id: TaskId): (r: seq<Task>)
    ensures |r| == |tasks|
    ensures forall k :: 0 <= k < |tasks| ==>
      r[k].id == tasks[k].id && r[k].text == tasks[k].text && r[k].timeSpent == tasks[k].timeSpent &&
      r[k].completed == (if tasks[k].id == id then !tasks[k].completed else tasks[k].completed)
  {
    UpdateMatching(tasks, id, Flip)
  }

  /** resetTimer's new list: only `timeSpent` of the matching tasks changes, to zero. */
  function ResetTime(tasks: seq<Task>, id: TaskId): (r: seq<Task>)
    ensures |r| == |tasks|
    ensures forall k :: 0 <= k < |tasks| ==>
      r[k].id == tasks[k].id && r[k].text == tasks[k].text && r[k].completed == tasks[k].completed &&
      r[k].timeSpent == (if tasks[k].id == id then 0 else tasks[k].timeSpent)
  {
    UpdateMatching(tasks, id, Zeroed)
  }

  /** The interval callback's new list for a running timer on `id`. */
  function AdvanceTime(tasks: seq<Task>, id: TaskId): (r: seq<Task>)
    ensures |r| == |tasks|
    ensures forall k :: 0 <= k < |tasks| ==>
      r[k].id == tasks[k].id && r[k].text == tasks[k].text && r[k].completed == tasks[k].completed &&
      r[k].timeSpent == (if tasks[k].id == id then tasks[k].timeSpent + 1 else tasks[k].timeSpent)
  {
    UpdateMatching(tasks, id, Advanced)
  }

  // ---------------------------------------------------------------------
  // Handlers as list transforms

  /** addTask's new list: nothing for blank input, else one fresh, trimmed, open task at the end. */
  function AddTask(tasks: seq<Task>, id: TaskId, input: string): (r: seq<Task>)
    ensures AllWhitespace(input) ==> r == tasks
    ensures !AllWhitespace(input) ==>
      |r| == |tasks| + 1 && r[..|tasks|] == tasks && r[|tasks|] == Task(id, Trim(input), false, 0)
  {
    TrimEmptyIff(input);
    if Trim(input) == [] then tasks
    else
      var r := tasks + [Task(id, Trim(input), false, 0)];
      assert r[..|tasks|] == tasks;
      r
  }

  /** deleteTask's `tasks.filter(task => task.id !== id)`. */
  function DeleteTask(tasks: seq<Task>, id: TaskId): (r: seq<Task>)
    ensures |r| == |tasks| - Occurrences(tasks, id)
  {
    if tasks == [] then []
    else if tasks[0].id == id then DeleteTask(tasks[1..], id)
    else [tasks[0]] + DeleteTask(tasks[1..], id)
  }

  /** The interval callback: advance the task the running timer names; with no running timer, nothing. */
  function Tick(tasks: seq<Task>, activeTimer: Option<TaskId>): (r: seq<Task>)
    ensures |r| == |tasks|
    ensures forall k :: 0 <= k < |tasks| ==>
      r[k].id == tasks[k].id && r[k].text == tasks[k].text && r[k].completed == tasks[k].completed &&
      r[k].timeSpent == tasks[k].timeSpent + (if activeTimer == Some(tasks[k].id) then 1 else 0)
  {
    match activeTimer
    case None => tasks
    case Some(id) => AdvanceTime(tasks, id)
  }

  /** The running timer after toggleTask, deleteTask and resetTimer on `id`. */
  function StopIf(activeTimer: Option<TaskId>, id: TaskId): (r: Option<TaskId>)
    ensures r == None <==> activeTimer == None || activeTimer == Some(id)
    ensures r != None ==> r == activeTimer
  {
    if activeTimer == Some(id) then None else activeTimer
  }

  /** The running timer after toggleTimer(id): pause if it is running, otherwise take over the single slot. */
  function ToggleTimer(activeTimer: Option<TaskId>, id: TaskId): (r: Option<TaskId>)
    ensures activeTimer == Some(id) ==> r == None
    ensures activeTimer != Some(id) ==> r == Some(id)
  {
    if activeTimer == Some(id) then None else Some(id)
  }

  // ---------------------------------------------------------------------
  // Derived values

  function CompletedCount(tasks: seq<Task>): (n: nat)
    ensures n <= |tasks|
  {
    if tasks == [] then 0 else (if tasks[0].completed then 1 else 0) + CompletedCount(tasks[1..])
  }

  /** The "Active Tasks" statistic, `tasks.filter(t => !t.completed).length`. */
  function ActiveCount(tasks: seq<Task>): (n: nat)
    ensures n <= |tasks|
  {
    if tasks == [] then 0 else (if tasks[0].completed then 0 else 1) + ActiveCount(tasks[1..])
  }

  /** Every task is either active or completed. */
  lemma {:induction false} CountsPartition(tasks: seq<Task>)
    ensures ActiveCount(tasks) + CompletedCount(tasks) == |tasks|
  {
    if tasks != [] {
      CountsPartition(tasks[1..]);
    }
  }

  /** `tasks.length`, which is the active count plus the completed count. */
  function TotalCount(tasks: seq<Task>): (n: nat)
    ensures n == ActiveCount(tasks) + CompletedCount(tasks)
  {
    CountsPartition(tasks);
    |tasks|
  }

  /** The `reduce` sum of every task's timeSpent: no single task's time exceeds it. */
  function TotalTimeSpent(tasks: seq<Task>): (n: nat)
    ensures tasks == [] ==> n == 0
    ensures forall k :: 0 <= k < |tasks| ==> tasks[k].timeSpent <= n
  {
    if tasks == [] then 0
    else
      var rest := TotalTimeSpent(tasks[1..]);
      assert forall k :: 1 <= k < |tasks| ==> tasks[k] == tasks[1..][k - 1];
      tasks[0].timeSpent + rest
  }

  /** Math.round(100 * completed / total) in integers: the nearest whole percent, halves rounded up. */
  function Percent(completed: nat, total: nat): (p: nat)
    requires 0 < total
    ensures 2 * total * p <= 200 * completed + total < 2 * total * (p + 1)
  {
    var p := (200 * completed + total) / (2 * total);
    DivBounds(200 * completed + total, 2 * total, p);
    p
  }

  lemma DivBounds(a: nat, b: nat, q: nat)
    requires 0 < b && q == a / b
    ensures b * q <= a < b * (q + 1)
  {
  }

  /** The "Progress" statistic: 0 for an empty list, otherwise the rounded completion percentage. */
  function Progress(tasks: seq<Task>): (p: nat)
    ensures p <= 100
    ensures |tasks| == 0 ==> p == 0
    ensures |tasks| > 0 ==>
      2 * |tasks| * p <= 200 * CompletedCount(tasks) + |tasks| < 2 * |tasks| * (p + 1)
  {
    if |tasks| > 0 then
      var p := Percent(CompletedCount(tasks), |tasks|);
      PercentAtMost100(CompletedCount(tasks), |tasks|, p);
      p
    else 0
  }

  lemma PercentAtMost100(c: nat, t: nat, p: nat)
    requires 0 < t && c <= t && 2 * t * p <= 200 * c + t
    ensures p <= 100
  {
    assert t * (2 * p) <= t * 201;
  }

  /** tasks.find(task => task.id === activeTimer): the first task the running timer names, if any. */
  function ActiveTask(tasks: seq<Task>, activeTimer: Option<TaskId>): (r: Option<Task>)
    ensures r.Some? <==> activeTimer.Some? && HasId(tasks, activeTimer.value)
    ensures r.Some? ==> r.value.id == activeTimer.value && r.value in tasks
    ensures r.Some? ==>
      exists k ::
        0 <= k < |tasks| && tasks[k] == r.value && (forall j :: 0 <= j < k ==> tasks[j].id != activeTimer.value)
    ensures r.Some? && UniqueIds(tasks) ==>
      forall k :: 0 <= k < |tasks| && tasks[k].id == activeTimer.value ==> tasks[k] == r.value
  {
    match activeTimer
    case None => None
    case Some(id) =>
      if tasks == [] then None
      else if tasks[0].id == id then Some(tasks[0])
      else
        var r := ActiveTask(tasks[1..], activeTimer);
        assert HasId(tasks, id) <==> HasId(tasks[1..], id) by {
          if HasId(tasks, id) {
            var k :| 0 <= k < |tasks| && tasks[k].id == id;
            assert tasks[1..][k - 1].id == id;
          }
          if HasId(tasks[1..], id) {
            var k :| 0 <= k < |tasks[1..]| && tasks[1..][k].id == id;
            assert tasks[k + 1].id == id;
          }
        }
        assert UniqueIds(tasks) ==> UniqueIds(tasks[1..]) by {
          if UniqueIds(tasks) {
            forall i, j | 0 <= i < j < |tasks[1..]| ensures tasks[1..][i].id != tasks[1..][j].id {
              assert tasks[1..][i] == tasks[i + 1] && tasks[1..][j] == tasks[j + 1];
            }
          }
        }
        if r.Some? then FirstMatchCons(tasks, id, r.value); r else r
  }

  /** A first match in the tail, after a non-matching head, is a first match in the whole list. */
  lemma FirstMatchCons(tasks: seq<Task>, id: TaskId, v: Task)
    requires tasks != [] && tasks[0].id != id
    requires exists k ::
      0 <= k < |tasks[1..]| && tasks[1..][k] == v && (forall j :: 0 <= j < k ==> tasks[1..][j].id != id)
    ensures exists k :: 0 <= k < |tasks| && tasks[k] == v && (forall j :: 0 <= j < k ==> tasks[j].id != id)
  {
    var k :| 0 <= k < |tasks[1..]| && tasks[1..][k] == v && (forall j :: 0 <= j < k ==> tasks[1..][j].id != id);
    forall j | 0 <= j < k + 1
      ensures tasks[j].id != id
    {
      if j > 0 {
        assert tasks[j] == tasks[1..][j - 1];
      }
    }
    assert tasks[k + 1] == v;
  }
}
