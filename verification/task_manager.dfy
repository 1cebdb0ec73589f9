/** The `TaskManager` component. Unlike `App.jsx` it keeps its tasks in
    insertion order and sorts a copy (`sortedTasks`) only for display. Its
    tasks carry no completion flag; the model's `completed` field stays
    `false` for them. */
module TaskManager {
  import opened Tasks
  import opened Sorting
  import TaskStore
  import Wrappers

  /** The `newTask` form state. */
  datatype Draft = Draft(description: string, dueDate: int, priority: Priority)

  /** `addTask`: a no-op when the description is the empty string, otherwise
      the new task is appended at the end. The description is not trimmed. */
  function AddTask(tasks: seq<Task>, draft: Draft, freshId: int): (r: seq<Task>)
    ensures draft.description == [] ==> r == tasks
    ensures draft.description != [] ==>
      && |r| == |tasks| + 1
      && r[..|tasks|] == tasks
      && r[|tasks|] == Task(freshId, draft.description, draft.dueDate, draft.priority, false)
  {
    if draft.description != [] then
      tasks + [Task(freshId, draft.description, draft.dueDate, draft.priority, false)]
    else
      tasks
  }

  /** Removing the id an add has just stamped undoes the add, provided the
      id was fresh. */
  lemma RemoveUndoesAdd(tasks: seq<Task>, draft: Draft, freshId: int)
    requires forall t :: t in tasks ==> t.id != freshId
    ensures RemoveTask(AddTask(tasks, draft, freshId), freshId) == tasks
  {
    WithoutAbsentId(tasks, freshId);
    if draft.description != [] {
      var n := Task(freshId, draft.description, draft.dueDate, draft.priority, false);
      WithoutIdConcat(tasks, [n], freshId);
      assert WithoutId([n], freshId) == [];
    }
  }

  /** A description of spaces alone is accepted here, while the `App.jsx`
      form rejects it. */
  lemma BlankDescriptionAccepted(tasks: seq<Task>, dueDate: int, freshId: int)
    ensures |AddTask(tasks, Draft(" ", dueDate, Medium), freshId)| == |tasks| + 1
    ensures TaskStore.AddTask(tasks, " ", Wrappers.Some(dueDate), Medium, freshId) == tasks
  {
    assert TaskStore.Blank(" ");
  }

  /** `removeTask(id)`: exactly the tasks with that id are dropped and the
      survivors keep their relative order. */
  function RemoveTask(tasks: seq<Task>, id: int): (r: seq<Task>)
    ensures forall t :: t in r <==> t in tasks && t.id != id
    ensures forall t {:trigger multiset(r)[t]} :: multiset(r)[t] == if t.id == id then 0 else multiset(tasks)[t]
    ensures SubsequenceOf(r, tasks)
  {
    WithoutIdKeepsOrder(tasks, id);
    WithoutIdMembers(tasks, id);
    WithoutId(tasks, id)
  }

  /** The per-task update of `changePriority`. */
  function Bump(id: int, dir: Direction): Task -> Task {
    (t: Task) => if t.id == id then t.(priority := ManagerStep(t.priority, dir)) else t
  }

  /** `changePriority(id, direction)`: position by position, only the
      priority of the tasks with that id changes, and it moves one step
      toward "high" or "low", staying put at the end of the scale. */
  function ChangePriority(tasks: seq<Task>, id: int, dir: Direction): (r: seq<Task>)
    ensures |r| == |tasks|
    ensures forall i :: 0 <= i < |tasks| ==>
      && r[i].id == tasks[i].id && r[i].text == tasks[i].text
      && r[i].date == tasks[i].date && r[i].completed == tasks[i].completed
      && (tasks[i].id != id ==> r[i].priority == tasks[i].priority)
    ensures forall i :: 0 <= i < |tasks| && tasks[i].id == id ==>
      && Level(tasks[i].priority) - 1 <= Level(r[i].priority) <= Level(tasks[i].priority) + 1
      && (dir == Up ==> Level(r[i].priority) >= Level(tasks[i].priority)
                        && (r[i].priority == tasks[i].priority <==> tasks[i].priority == High))
      && (dir == Down ==> Level(r[i].priority) <= Level(tasks[i].priority)
                          && (r[i].priority == tasks[i].priority <==> tasks[i].priority == Low))
  {
    var r := MapTasks(tasks, Bump(id, dir));
    assert forall i :: 0 <= i < |tasks| ==> ManagerStep(tasks[i].priority, dir) == AppStep(tasks[i].priority, dir) by {
      forall i | 0 <= i < |tasks| {
        StepsAgree(tasks[i].priority, dir);
      }
    }
    r
  }

  /** `sortedTasks`: an ordered, stable permutation of a copy of `tasks`. */
  function SortedTasks(tasks: seq<Task>): (r: seq<Task>)
    ensures Sorted(r)
    ensures multiset(r) == multiset(tasks)
    ensures forall d, p :: TieClass(r, d, p) == TieClass(tasks, d, p)
  {
    forall d, p ensures TieClass(Sort(tasks), d, p) == TieClass(tasks, d, p) {
      SortStable(tasks, d, p);
    }
    Sort(tasks)
  }

  /** The two implementations show the same list: removing a task and
      sorting for display gives `App.jsx`'s `deleteTask` result. */
  lemma RemoveMatchesApp(tasks: seq<Task>, id: int)
    ensures SortedTasks(RemoveTask(tasks, id)) == TaskStore.DeleteTask(tasks, id)
  {
  }

  /** Changing a priority and sorting for display gives `App.jsx`'s
      `changePriority` result. */
  lemma ChangePriorityMatchesApp(tasks: seq<Task>, id: int, dir: Direction)
    ensures SortedTasks(ChangePriority(tasks, id, dir)) == TaskStore.ChangePriority(tasks, id, dir)
  {
    var a := MapTasks(tasks, Bump(id, dir));
    var b := MapTasks(tasks, TaskStore.Bump(id, dir));
    assert a == b by {
      forall i | 0 <= i < |tasks|
        ensures a[i] == b[i]
      {
        StepsAgree(tasks[i].priority, dir);
      }
    }
  }
}
