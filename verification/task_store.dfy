/** The task list held in `App.jsx`'s state: every mutation goes through
    `sortTasks`, so the list is kept in the canonical order. The React setter
    `setTasks(prev => ...)` becomes a pure function from the old list to the
    new one; `Date.now()` becomes the `freshId` parameter. */
module TaskStore {
  import opened Wrappers
  import opened Tasks
  import opened Sorting

  /** JavaScript's WhiteSpace and LineTerminator characters: what `trim` removes. */
  predicate IsSpace(c: char) {
    || ('\t' <= c <= '\r')   // tab, line feed, vertical tab, form feed, carriage return
    || c == ' ' || c == '\U{A0}' || c == '\U{1680}'
    || ('\U{2000}' <= c <= '\U{200A}')
    || c == '\U{2028}' || c == '\U{2029}' || c == '\U{202F}' || c == '\U{205F}'
    || c == '\U{3000}' || c == '\U{FEFF}'
  }

  /** Every character of `s` is white space (the empty string included). */
  predicate Blank(s: string) {
    forall i :: 0 <= i < |s| ==> IsSpace(s[i])
  }

  function TrimStart(s: string): (r: string)
    ensures |r| <= |s| && r == s[|s| - |r|..]
    ensures r == [] || !IsSpace(r[0])
    ensures r == [] <==> Blank(s)
    ensures Blank(s[..|s| - |r|])
  {
    if s != [] && IsSpace(s[0]) then
      assert Blank(s) <==> Blank(s[1..]) by {
        assert forall i :: 0 < i < |s| ==> s[i] == s[1..][i - 1];
      }
      TrimStart(s[1..])
    else s
  }

  function TrimEnd(s: string): (r: string)
    ensures |r| <= |s| && r == s[..|r|]
    ensures r == [] || !IsSpace(r[|r| - 1])
    ensures r == [] <==> Blank(s)
    ensures Blank(s[|r|..])
  {
    if s != [] && IsSpace(s[|s| - 1]) then TrimEnd(s[..|s| - 1]) else s
  }

  /** A blank-bounded prefix of a blank-bounded suffix is a blank-bounded slice. */
  lemma TrimSlice(s: string, u: string, r: string)
    requires |u| <= |s| && u == s[|s| - |u|..] && Blank(s[..|s| - |u|])
    requires |r| <= |u| && r == u[..|r|] && Blank(u[|r|..])
    ensures exists i, j :: 0 <= i <= j <= |s| && r == s[i..j] && Blank(s[..i]) && Blank(s[j..])
  {
    var i := |s| - |u|;
    var j := i + |r|;
    assert r == s[i..j] && s[j..] == u[|r|..];
  }

  /** `String.prototype.trim`. */
  function Trim(s: string): (r: string)
    ensures r == [] || (!IsSpace(r[0]) && !IsSpace(r[|r| - 1]))
    ensures exists i, j :: 0 <= i <= j <= |s| && r == s[i..j] && Blank(s[..i]) && Blank(s[j..])
  {
    var u := TrimStart(s);
    var r := TrimEnd(u);
    assert r != [] ==> r[0] == u[0];
    TrimSlice(s, u, r);
    r
  }

  /** `text.trim()` is falsy exactly when the text is blank. */
  lemma TrimEmptyIffBlank(s: string)
    ensures Trim(s) == [] <==> Blank(s)
  {
    var u := TrimStart(s);
    assert Trim(s) == [] <==> Blank(u);
    if u != [] {
      assert !Blank(u);
    }
  }

  /** The task `addTask` creates from the form fields. */
  function NewTask(freshId: int, text: string, date: int, priority: Priority): Task {
    Task(freshId, text, date, priority, false)
  }

  /** `addTask`: nothing happens unless the trimmed text and the date field
      are both non-empty; otherwise the new task is appended and the list
      re-sorted. `date == None` stands for the empty date field. */
  function AddTask(tasks: seq<Task>, text: string, date: Option<int>, priority: Priority, freshId: int): (r: seq<Task>)
    ensures Blank(text) || date == None ==> r == tasks
    ensures !Blank(text) && date.Some? ==>
      && Sorted(r)
      && multiset(r) == multiset(tasks) + multiset{NewTask(freshId, text, date.value, priority)}
  {
    TrimEmptyIffBlank(text);
    if Trim(text) != [] && date.Some? then
      Sort(tasks + [NewTask(freshId, text, date.value, priority)])
    else
      tasks
  }

  /** The add-task form: the text, the date field (`None` when empty) and
      the selected priority. */
  datatype Form = Form(text: string, date: Option<int>, priority: Priority)

  /** The add button: `addTask` on the list, and on success the text and
      date fields are cleared while the selected priority stays. */
  function Submit(tasks: seq<Task>, form: Form, freshId: int): (r: (seq<Task>, Form))
    ensures r.0 == AddTask(tasks, form.text, form.date, form.priority, freshId)
    ensures Blank(form.text) || form.date == None ==> r == (tasks, form)
    ensures !Blank(form.text) && form.date.Some? ==> r.1 == Form("", None, form.priority)
  {
    TrimEmptyIffBlank(form.text);
    if Trim(form.text) != [] && form.date.Some? then
      (AddTask(tasks, form.text, form.date, form.priority, freshId), Form("", None, form.priority))
    else
      (tasks, form)
  }

  /** Pressing the button again right after a successful add does nothing:
      the cleared form is rejected. */
  lemma SubmitClears(tasks: seq<Task>, form: Form, freshId: int, nextId: int)
    ensures var (t1, f1) := Submit(tasks, form, freshId);
      Submit(t1, f1, nextId) == (t1, f1)
  {
  }

  /** A new task goes after every existing task with its due date and
      priority, and every tie class of the other tasks keeps its order. */
  lemma AddTaskStable(tasks: seq<Task>, text: string, date: int, priority: Priority, freshId: int, d: int, p: Priority)
    requires !Blank(text)
    ensures TieClass(AddTask(tasks, text, Some(date), priority, freshId), d, p)
         == TieClass(tasks, d, p) + (if date == d && priority == p then [NewTask(freshId, text, date, priority)] else [])
  {
    TrimEmptyIffBlank(text);
    var a := NewTask(freshId, text, date, priority);
    SortStable(tasks + [a], d, p);
    TieClassAppend(tasks, a, d, p);
  }

  /** On a list in canonical order, an accepted add slots the new task in
      right after the tasks that precede or tie with it, and every existing
      task keeps its relative order. */
  lemma AddKeepsOrder(tasks: seq<Task>, text: string, date: int, priority: Priority, freshId: int)
    requires Sorted(tasks) && !Blank(text)
    ensures AddTask(tasks, text, Some(date), priority, freshId) == InsertAfterTies(NewTask(freshId, text, date, priority), tasks)
    ensures SubsequenceOf(tasks, AddTask(tasks, text, Some(date), priority, freshId))
  {
    var n := NewTask(freshId, text, date, priority);
    AddAccepted(tasks, text, date, priority, freshId);
    SortAppended(tasks, n);
    InsertAfterTiesKeepsOrder(n, tasks);
  }

  /** The per-task update of `toggleComplete`. */
  function Flip(id: int): Task -> Task {
    (t: Task) => if t.id == id then t.(completed := !t.completed) else t
  }

  /** `toggleComplete(id)`: on a list in canonical order, position by
      position, only the `completed` flag of the tasks with that id flips. */
  function ToggleComplete(tasks: seq<Task>, id: int): (r: seq<Task>)
    ensures Sorted(r) && |r| == |tasks|
    ensures Sorted(tasks) ==> forall i :: 0 <= i < |tasks| ==>
      && r[i].id == tasks[i].id && r[i].text == tasks[i].text
      && r[i].date == tasks[i].date && r[i].priority == tasks[i].priority
      && r[i].completed == (tasks[i].completed != (tasks[i].id == id))
  {
    SortMap(tasks, Flip(id));
    var r := Sort(MapTasks(tasks, Flip(id)));
    if Sorted(tasks) then SortSorted(tasks); r else r
  }

  lemma FlipInvolution(id: int)
    ensures forall e :: Flip(id)(Flip(id)(e)) == e
  {
    forall e: Task
      ensures Flip(id)(Flip(id)(e)) == e
    {
      if e.id == id {
        assert Flip(id)(e) == e.(completed := !e.completed);
      }
    }
  }

  /** Toggling twice restores the completion flags; on a list in canonical
      order it is the identity. */
  lemma ToggleTwice(tasks: seq<Task>, id: int)
    ensures ToggleComplete(ToggleComplete(tasks, id), id) == Sort(tasks)
    ensures Sorted(tasks) ==> ToggleComplete(ToggleComplete(tasks, id), id) == tasks
  {
    var f := Flip(id);
    var u := ToggleComplete(tasks, id);
    SortMap(tasks, f);
    assert u == MapTasks(Sort(tasks), f);
    SortMap(u, f);
    SortSorted(u);
    assert ToggleComplete(u, id) == MapTasks(u, f);
    FlipInvolution(id);
    MapInvolution(Sort(tasks), f);
    if Sorted(tasks) {
      SortSorted(tasks);
    }
  }

  /** `deleteTask(id)`: exactly the tasks with that id disappear. */
  function DeleteTask(tasks: seq<Task>, id: int): (r: seq<Task>)
    ensures Sorted(r)
    ensures forall t {:trigger multiset(r)[t]} :: multiset(r)[t] == if t.id == id then 0 else multiset(tasks)[t]
    ensures Sorted(tasks) ==> SubsequenceOf(r, tasks)
    ensures Sorted(tasks) && (forall t :: t in tasks ==> t.id != id) ==> r == tasks
  {
    var kept := WithoutId(tasks, id);
    WithoutIdMembers(tasks, id);
    var r := Sort(kept);
    if !Sorted(tasks) then r
    else
      WithoutIdSorted(tasks, id);
      SortSorted(kept);
      WithoutIdKeepsOrder(tasks, id);
      if forall t :: t in tasks ==> t.id != id then WithoutAbsentId(tasks, id); r else r
  }

  /** Adding a task with a fresh id, sorting, then filtering that id out
      gives back every tie class of the original list. */
  lemma FreshTiesRestored(tasks: seq<Task>, n: Task, d: int, p: Priority)
    requires forall t :: t in tasks ==> t.id != n.id
    ensures TieClass(WithoutId(Sort(tasks + [n]), n.id), d, p) == TieClass(tasks, d, p)
  {
    var x := Sort(tasks + [n]);
    var c := if n.date == d && n.priority == p then [n] else [];
    var tc := TieClass(tasks, d, p);
    TieClassWithoutId(x, n.id, d, p);
    SortStable(tasks + [n], d, p);
    TieClassAppend(tasks, n, d, p);
    assert TieClass(x, d, p) == tc + c;
    WithoutIdConcat(tc, c, n.id);
    assert WithoutId(c, n.id) == [];
    TieClassMembers(tasks, d, p);
    WithoutAbsentId(tc, n.id);
    assert WithoutId(tc + c, n.id) == tc + [];
  }

  /** Deleting the id a successful add has just stamped undoes the add,
      provided the id was fresh; after a rejected add the delete finds
      nothing to remove. */
  lemma DeleteUndoesAdd(tasks: seq<Task>, text: string, date: Option<int>, priority: Priority, freshId: int)
    requires Sorted(tasks)
    requires forall t :: t in tasks ==> t.id != freshId
    ensures DeleteTask(AddTask(tasks, text, date, priority, freshId), freshId) == tasks
  {
    if !Blank(text) && date.Some? {
      var n := NewTask(freshId, text, date.value, priority);
      var x := AddTask(tasks, text, date, priority, freshId);
      TrimEmptyIffBlank(text);
      assert x == Sort(tasks + [n]);
      var w := WithoutId(x, freshId);
      WithoutIdSorted(x, freshId);
      SortSorted(w);
      assert DeleteTask(x, freshId) == w;
      forall d, p
        ensures TieClass(w, d, p) == TieClass(tasks, d, p)
      {
        FreshTiesRestored(tasks, n, d, p);
      }
      assert SameTies(w, tasks);
      SortedUnique(w, tasks);
    }
  }

  /** The per-task update of `changePriority`. */
  function Bump(id: int, dir: Direction): Task -> Task {
    (t: Task) => if t.id == id then t.(priority := AppStep(t.priority, dir)) else t
  }

  /** A map that keeps ids and changes only tasks carrying `id` leaves the
      multiplicity of every other task alone. */
  lemma {:induction false} MapFixesOthers(s: seq<Task>, f: Task -> Task, id: int)
    requires forall e :: f(e).id == e.id
    requires forall e: Task :: e.id != id ==> f(e) == e
    ensures forall t: Task {:trigger multiset(s)[t]} :: t.id != id ==> multiset(MapTasks(s, f))[t] == multiset(s)[t]
  {
    if s != [] {
      MapFixesOthers(s[1..], f, id);
      assert s == [s[0]] + s[1..];
      assert MapTasks(s, f) == [f(s[0])] + MapTasks(s[1..], f);
    }
  }

  /** `changePriority(id, direction)`: the tasks with that id move one
      priority step (clamped), the others are untouched, and the list is
      re-sorted. */
  function ChangePriority(tasks: seq<Task>, id: int, dir: Direction): (r: seq<Task>)
    ensures Sorted(r) && |r| == |tasks|
    ensures forall t: Task {:trigger multiset(r)[t]} :: t.id != id ==> multiset(r)[t] == multiset(tasks)[t]
    ensures forall u :: u in r && u.id == id ==>
      exists t :: t in tasks && t.id == id && u == t.(priority := AppStep(t.priority, dir))
    ensures forall t :: t in tasks && t.id == id ==> t.(priority := AppStep(t.priority, dir)) in r
    ensures multiset(r) == multiset(MapTasks(tasks, Bump(id, dir)))
  {
    var f := Bump(id, dir);
    MapFixesOthers(tasks, f, id);
    var m := MapTasks(tasks, f);
    var r := Sort(m);
    assert forall u :: u in r ==> u in m by {
      forall u | u in r
        ensures u in m
      {
        assert u in multiset(r);
      }
    }
    assert forall t :: t in tasks ==> f(t) in r by {
      forall t | t in tasks
        ensures f(t) in r
      {
        var k :| 0 <= k < |tasks| && tasks[k] == t;
        assert m[k] == f(t);
        assert f(t) in multiset(m);
      }
    }
    r
  }

  /** One user action on the task list. */
  datatype Action =
    | Add(text: string, date: Option<int>, priority: Priority, freshId: int)
    | Delete(id: int)
    | Toggle(id: int)
    | Change(id: int, dir: Direction)

  function Apply(tasks: seq<Task>, a: Action): seq<Task> {
    match a
    case Add(text, date, priority, freshId) => AddTask(tasks, text, date, priority, freshId)
    case Delete(id) => DeleteTask(tasks, id)
    case Toggle(id) => ToggleComplete(tasks, id)
    case Change(id, dir) => ChangePriority(tasks, id, dir)
  }

  /** The list after a history of actions, starting from `useState([])`:
      whatever the history, it is in canonical order. */
  function Replay(actions: seq<Action>): (r: seq<Task>)
    ensures Sorted(r)
  {
    if actions == [] then []
    else Apply(Replay(actions[..|actions| - 1]), actions[|actions| - 1])
  }

  /** An add with a non-blank text and a date appends the task and re-sorts. */
  lemma AddAccepted(tasks: seq<Task>, text: string, date: int, priority: Priority, freshId: int)
    requires !Blank(text)
    ensures AddTask(tasks, text, Some(date), priority, freshId) == Sort(tasks + [NewTask(freshId, text, date, priority)])
  {
    TrimEmptyIffBlank(text);
  }

  lemma ReplayTwo(a0: Action, a1: Action)
    ensures Replay([a0, a1]) == Apply(Apply([], a0), a1)
  {
    var s := [a0, a1];
    assert s[..|s| - 1] == [a0];
    assert Replay(s) == Apply(Replay([a0]), a1);
    assert [a0][..0] == [];
    assert Replay([a0]) == Apply(Replay([]), a0);
  }

  /** An accepted add into the empty list gives the one-task list. */
  lemma AddToEmpty(text: string, date: int, priority: Priority, freshId: int)
    requires !Blank(text)
    ensures Apply([], Add(text, Some(date), priority, freshId)) == [NewTask(freshId, text, date, priority)]
  {
    var n := NewTask(freshId, text, date, priority);
    AddAccepted([], text, date, priority, freshId);
    assert [] + [n] == [n];
    SortSingleton(n);
  }

  /** An accepted add of a task the only listed task does not precede puts
      the new task in front. */
  lemma AddInFront(t: Task, text: string, date: int, priority: Priority, freshId: int)
    requires !Blank(text)
    requires t.date == date && Rank(t.priority) > Rank(priority)
    ensures Apply([t], Add(text, Some(date), priority, freshId)) == [NewTask(freshId, text, date, priority), t]
  {
    var n := NewTask(freshId, text, date, priority);
    AddAccepted([t], text, date, priority, freshId);
    assert [t] + [n] == [t, n];
    SortSingleton(n);
    assert Sort([t, n]) == Insert(t, [n]) by {
      assert [t, n][1..] == [n];
    }
    InsertBehind(t, n);
  }

  /** Two tasks on one date entered low first, then high: the list shows the
      high-priority task first. */
  lemma SameDateHighFirst(lowText: string, highText: string, date: int, lowId: int, highId: int)
    requires !Blank(lowText) && !Blank(highText)
    ensures Replay([Add(lowText, Some(date), Low, lowId), Add(highText, Some(date), High, highId)])
         == [NewTask(highId, highText, date, High), NewTask(lowId, lowText, date, Low)]
  {
    var low := NewTask(lowId, lowText, date, Low);
    ReplayTwo(Add(lowText, Some(date), Low, lowId), Add(highText, Some(date), High, highId));
    AddToEmpty(lowText, date, Low, lowId);
    AddInFront(low, highText, date, High, highId);
  }
}
