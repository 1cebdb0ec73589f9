/** Task records shared by the two task-list implementations (the one inside
    `App.jsx` and the `TaskManager` component), the canonical ordering both
    of their sort comparators induce, the one-step priority change each of
    them writes in its own way, and the list transformations they build on. */
module Tasks {

  /** The three priority levels the Select widgets offer. */
  datatype Priority = Low | Medium | High

  /** The argument of `changePriority`: "up" or anything else ("down"). */
  datatype Direction = Up | Down

  /** A task. `id` is the wall-clock number the source stamps on creation
      (here an opaque parameter); `date` is the due date, abstracted to an
      ordered key; `text` is the description as typed, untrimmed. */
  datatype Task = Task(id: int, text: string, date: int, priority: Priority, completed: bool)

  /** The source's `["low", "medium", "high"]` array. */
  const Levels: seq<Priority> := [Low, Medium, High]

  /** `["low", "medium", "high"].indexOf(p)`. */
  function Level(p: Priority): (i: nat)
    ensures i < |Levels| && Levels[i] == p
  {
    match p
    case Low => 0
    case Medium => 1
    case High => 2
  }

  /** `App.jsx`'s `priorityOrder` table: high first. */
  function Rank(p: Priority): (r: nat)
    ensures r + Level(p) == 2
  {
    match p
    case High => 0
    case Medium => 1
    case Low => 2
  }

  /** Two tasks are equal for the comparator: same due date and same priority. */
  predicate SameKey(a: Task, b: Task) {
    a.date == b.date && a.priority == b.priority
  }

  /** The canonical order: due date ascending, then high before medium before low. */
  predicate Precedes(a: Task, b: Task) {
    a.date < b.date || (a.date == b.date && Rank(a.priority) <= Rank(b.priority))
  }

  /** The comparator passed to `sort` in `App.jsx`'s `sortTasks`. */
  function CompareApp(a: Task, b: Task): int {
    if a.date < b.date then -1
    else if a.date > b.date then 1
    else Rank(a.priority) - Rank(b.priority)
  }

  /** The comparator of `TaskManager.jsx`'s `sortedTasks`. */
  function CompareManager(a: Task, b: Task): int {
    if a.date != b.date then a.date - b.date
    else Level(b.priority) - Level(a.priority)
  }

  function Sign(x: int): int {
    if x < 0 then -1 else if x > 0 then 1 else 0
  }

  /** Both comparators are consistent, agree with each other in sign, and
      induce exactly the canonical order with `SameKey` as their ties. */
  lemma ComparatorsAgree(a: Task, b: Task)
    ensures CompareApp(a, b) <= 0 <==> Precedes(a, b)
    ensures CompareApp(a, b) == 0 <==> SameKey(a, b)
    ensures Sign(CompareApp(a, b)) == Sign(CompareManager(a, b))
    ensures Sign(CompareApp(a, b)) == -Sign(CompareApp(b, a))
  {
  }

  /** `App.jsx`'s priority change: move the index in `Levels` by one and
      clamp it with `Math.min(.., 2)` / `Math.max(.., 0)`. */
  function AppStep(p: Priority, dir: Direction): (q: Priority)
    ensures Level(p) - 1 <= Level(q) <= Level(p) + 1
    ensures dir == Up ==> Level(q) >= Level(p) && (q == p <==> p == High)
    ensures dir == Down ==> Level(q) <= Level(p) && (q == p <==> p == Low)
  {
    var i := Level(p);
    var j := if dir == Up then (if i + 1 < 2 then i + 1 else 2) else (if i - 1 > 0 then i - 1 else 0);
    Levels[j]
  }

  /** `TaskManager.jsx`'s priority change: "up" at high and "down" at low
      return the level itself, otherwise the neighbouring array entry. */
  function ManagerStep(p: Priority, dir: Direction): Priority {
    if dir == Up then
      (if p == High then High else Levels[Level(p) + 1])
    else
      (if p == Low then Low else Levels[Level(p) - 1])
  }

  /** The two priority-change formulations compute the same level. */
  lemma StepsAgree(p: Priority, dir: Direction)
    ensures ManagerStep(p, dir) == AppStep(p, dir)
  {
  }

  /** Raising then lowering a priority restores it unless the raise was clamped,
      and symmetrically. */
  lemma StepRoundTrip(p: Priority)
    ensures p != High ==> AppStep(AppStep(p, Up), Down) == p
    ensures p != Low ==> AppStep(AppStep(p, Down), Up) == p
  {
  }

  /** `tasks.map(f)`. */
  function MapTasks(s: seq<Task>, f: Task -> Task): (r: seq<Task>)
    ensures |r| == |s|
    ensures forall i :: 0 <= i < |s| ==> r[i] == f(s[i])
  {
    if s == [] then [] else [f(s[0])] + MapTasks(s[1..], f)
  }

  /** Mapping an involution twice gives the list back. */
  lemma MapInvolution(s: seq<Task>, f: Task -> Task)
    requires forall e :: f(f(e)) == e
    ensures MapTasks(MapTasks(s, f), f) == s
  {
    var m := MapTasks(MapTasks(s, f), f);
    assert forall i :: 0 <= i < |s| ==> m[i] == s[i];
  }

  /** `tasks.filter((task) => task.id !== id)`. */
  function WithoutId(s: seq<Task>, id: int): seq<Task> {
    if s == [] then []
    else (if s[0].id != id then [s[0]] else []) + WithoutId(s[1..], id)
  }

  /** What the filter keeps: every task whose id differs, as often as it occurs. */
  lemma {:induction false} WithoutIdMembers(s: seq<Task>, id: int)
    ensures forall t :: t in WithoutId(s, id) <==> t in s && t.id != id
    ensures forall t {:trigger multiset(s)[t]} :: multiset(WithoutId(s, id))[t] == if t.id == id then 0 else multiset(s)[t]
  {
    if s != [] {
      WithoutIdMembers(s[1..], id);
      assert s == [s[0]] + s[1..];
    }
  }

  /** `a` is `b` with some elements dropped and the rest in their original order. */
  predicate SubsequenceOf(a: seq<Task>, b: seq<Task>)
    decreases |b|
  {
    if a == [] then true
    else if b == [] then false
    else (a[0] == b[0] && SubsequenceOf(a[1..], b[1..])) || SubsequenceOf(a, b[1..])
  }

  /** Filtering by id keeps the survivors in their relative order. */
  lemma {:induction false} WithoutIdKeepsOrder(s: seq<Task>, id: int)
    ensures SubsequenceOf(WithoutId(s, id), s)
  {
    if s != [] {
      WithoutIdKeepsOrder(s[1..], id);
      var rest := WithoutId(s[1..], id);
      if s[0].id != id {
        assert WithoutId(s, id) == [s[0]] + rest;
        assert ([s[0]] + rest)[1..] == rest;
      } else {
        assert WithoutId(s, id) == rest;
        if rest != [] {
          assert SubsequenceOf(rest, s[1..]);
        }
      }
    }
  }

  lemma {:induction false} WithoutIdConcat(a: seq<Task>, b: seq<Task>, id: int)
    ensures WithoutId(a + b, id) == WithoutId(a, id) + WithoutId(b, id)
  {
    if a != [] {
      WithoutIdConcat(a[1..], b, id);
      var k := if a[0].id != id then [a[0]] else [];
      assert (a + b)[1..] == a[1..] + b;
      assert WithoutId(a + b, id) == k + WithoutId(a[1..] + b, id);
      assert WithoutId(a, id) == k + WithoutId(a[1..], id);
      assert k + (WithoutId(a[1..], id) + WithoutId(b, id)) == (k + WithoutId(a[1..], id)) + WithoutId(b, id);
    } else {
      assert a + b == b;
    }
  }

  /** Filtering for an id that no task carries changes nothing. */
  lemma {:induction false} WithoutAbsentId(s: seq<Task>, id: int)
    requires forall t :: t in s ==> t.id != id
    ensures WithoutId(s, id) == s
  {
    if s != [] {
      WithoutAbsentId(s[1..], id);
      assert s == [s[0]] + s[1..];
    }
  }
}
