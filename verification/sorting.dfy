/** The stable sort both task lists use. JavaScript's `Array.prototype.sort`
    is stable, so with a consistent comparator its result is the unique
    arrangement that is ordered, a permutation of the input, and keeps tasks
    the comparator calls equal in their input order. `Sort` below is an
    insertion sort over `Tasks.Precedes`, which `Tasks.ComparatorsAgree` ties
    to both comparators of the source. */
module Sorting {
  import opened Tasks

  /** Every earlier task precedes every later one. */
  predicate Sorted(s: seq<Task>) {
    forall i, j :: 0 <= i < j < |s| ==> Precedes(s[i], s[j])
  }

  /** The tasks of `s` carrying due date `d` and priority `p`, in order:
      the comparator's tie class of (d, p). */
  function TieClass(s: seq<Task>, d: int, p: Priority): seq<Task> {
    if s == [] then []
    else (if s[0].date == d && s[0].priority == p then [s[0]] else []) + TieClass(s[1..], d, p)
  }

  /** Prepending a task that precedes everything keeps a list ordered. */
  lemma SortedCons(h: Task, s: seq<Task>)
    requires Sorted(s)
    requires forall e :: e in s ==> Precedes(h, e)
    ensures Sorted([h] + s)
  {
    var r := [h] + s;
    forall i, j | 0 <= i < j < |r|
      ensures Precedes(r[i], r[j])
    {
      assert r[j] == s[j - 1];
      if i > 0 {
        assert r[i] == s[i - 1];
      }
    }
  }

  /** Inserts `x` before the first task it precedes, hence before its ties. */
  function Insert(x: Task, t: seq<Task>): (r: seq<Task>)
    ensures |r| == |t| + 1
    ensures multiset(r) == multiset(t) + multiset{x}
    ensures Sorted(t) ==> Sorted(r)
  {
    if t == [] || Precedes(x, t[0]) then
      if Sorted(t) then
        assert forall e :: e in t ==> Precedes(x, e) by {
          forall e | e in t
            ensures Precedes(x, e)
          {
            var k :| 0 <= k < |t| && t[k] == e;
            if k > 0 {
              assert Precedes(t[0], t[k]);
            }
          }
        }
        SortedCons(x, t);
        [x] + t
      else
        [x] + t
    else
      var rest := Insert(x, t[1..]);
      assert t == [t[0]] + t[1..];
      if Sorted(t) then
        assert Sorted(t[1..]);
        assert forall e :: e in rest ==> Precedes(t[0], e) by {
          forall e | e in rest
            ensures Precedes(t[0], e)
          {
            assert e in multiset(rest);
            if e != x {
              var k :| 0 <= k < |t[1..]| && t[1..][k] == e;
              assert t[k + 1] == e;
            }
          }
        }
        SortedCons(t[0], rest);
        [t[0]] + rest
      else
        [t[0]] + rest
  }

  /** `tasks.sort(comparator)`. */
  function Sort(s: seq<Task>): (r: seq<Task>)
    ensures |r| == |s|
    ensures multiset(r) == multiset(s)
    ensures Sorted(r)
  {
    if s == [] then []
    else
      assert s == [s[0]] + s[1..];
      Insert(s[0], Sort(s[1..]))
  }

  lemma SortSingleton(x: Task)
    ensures Sort([x]) == [x]
  {
    assert [x][1..] == [];
    assert Sort([]) == [];
    assert Insert(x, []) == [x] + [];
  }

  /** Inserting behind a task it does not precede. */
  lemma InsertBehind(x: Task, y: Task)
    requires !Precedes(x, y)
    ensures Insert(x, [y]) == [y, x]
  {
    assert [y][1..] == [];
    assert Insert(x, []) == [x];
  }

  lemma TieClassCons(a: Task, s: seq<Task>, d: int, p: Priority)
    ensures TieClass([a] + s, d, p) == (if a.date == d && a.priority == p then [a] else []) + TieClass(s, d, p)
  {
    assert ([a] + s)[1..] == s;
  }

  lemma {:induction false} InsertStable(x: Task, t: seq<Task>, d: int, p: Priority)
    ensures TieClass(Insert(x, t), d, p) == TieClass([x] + t, d, p)
  {
    if t != [] && !Precedes(x, t[0]) {
      var rest := Insert(x, t[1..]);
      assert Insert(x, t) == [t[0]] + rest;
      var cx := if x.date == d && x.priority == p then [x] else [];
      var ct := if t[0].date == d && t[0].priority == p then [t[0]] else [];
      assert cx == [] || ct == [];
      InsertStable(x, t[1..], d, p);
      TieClassCons(t[0], rest, d, p);
      TieClassCons(x, t[1..], d, p);
      TieClassCons(x, t, d, p);
      TieClassCons(t[0], t[1..], d, p);
      assert t == [t[0]] + t[1..];
      var tail := TieClass(t[1..], d, p);
      assert TieClass(rest, d, p) == cx + tail;
      if cx == [] {
        assert cx + tail == tail;
        assert ct + (cx + tail) == cx + (ct + tail);
      } else {
        assert ct + tail == tail;
        assert ct + (cx + tail) == cx + (ct + tail);
      }
    }
  }

  /** The sort is stable: each tie class comes out exactly as it went in. */
  lemma {:induction false} SortStable(s: seq<Task>, d: int, p: Priority)
    ensures TieClass(Sort(s), d, p) == TieClass(s, d, p)
  {
    if s != [] {
      SortStable(s[1..], d, p);
      InsertStable(s[0], Sort(s[1..]), d, p);
      assert ([s[0]] + Sort(s[1..]))[1..] == Sort(s[1..]);
      assert s == [s[0]] + s[1..];
    }
  }

  lemma {:induction false} TieClassMembers(s: seq<Task>, d: int, p: Priority)
    ensures forall t :: t in TieClass(s, d, p) <==> t in s && t.date == d && t.priority == p
  {
    if s != [] {
      TieClassMembers(s[1..], d, p);
      assert s == [s[0]] + s[1..];
    }
  }

  /** `a` and `b` agree on every tie class: each (date, priority) group
      holds the same tasks in the same order. */
  ghost predicate SameTies(a: seq<Task>, b: seq<Task>) {
    forall d, p :: TieClass(a, d, p) == TieClass(b, d, p)
  }

  /** Two ordered lists with the same tie classes are the same list. */
  lemma {:induction false} SortedUnique(a: seq<Task>, b: seq<Task>)
    requires Sorted(a) && Sorted(b)
    requires SameTies(a, b)
    ensures a == b
    decreases |a|
  {
    if a != [] {
      TieClassCons(a[0], a[1..], a[0].date, a[0].priority);
      assert a == [a[0]] + a[1..];
      assert b != [];
    }
    if b != [] {
      TieClassCons(b[0], b[1..], b[0].date, b[0].priority);
      assert b == [b[0]] + b[1..];
      assert a != [];
    }
    if a != [] && b != [] {
      var x, y := a[0], b[0];
      TieClassCons(x, a[1..], x.date, x.priority);
      TieClassCons(y, b[1..], y.date, y.priority);
      assert a == [x] + a[1..] && b == [y] + b[1..];
      TieClassMembers(a, y.date, y.priority);
      TieClassMembers(b, x.date, x.priority);
      assert x in b && y in a;
      assert Precedes(y, x) && Precedes(x, y);
      assert x.date == y.date && x.priority == y.priority;
      assert TieClass(a, x.date, x.priority)[0] == x;
      assert TieClass(b, x.date, x.priority)[0] == y;
      assert x == y;
      forall d, p
        ensures TieClass(a[1..], d, p) == TieClass(b[1..], d, p)
      {
        TieClassCons(x, a[1..], d, p);
        TieClassCons(x, b[1..], d, p);
        var c := if x.date == d && x.priority == p then [x] else [];
        assert c + TieClass(a[1..], d, p) == c + TieClass(b[1..], d, p);
        assert TieClass(a[1..], d, p) == (c + TieClass(a[1..], d, p))[|c|..];
        assert TieClass(b[1..], d, p) == (c + TieClass(b[1..], d, p))[|c|..];
      }
      assert Sorted(a[1..]) && Sorted(b[1..]);
      assert SameTies(a[1..], b[1..]);
      SortedUnique(a[1..], b[1..]);
    }
  }

  /** What the comparator sort of the source computes, stated without the
      algorithm: `r` is the sorted list exactly when it is ordered and keeps
      every tie class of `s` as it was. */
  lemma SortCharacterized(s: seq<Task>, r: seq<Task>)
    ensures r == Sort(s) <==> Sorted(r) && SameTies(r, s)
  {
    forall d, p ensures TieClass(Sort(s), d, p) == TieClass(s, d, p) {
      SortStable(s, d, p);
    }
    assert SameTies(Sort(s), s);
    if Sorted(r) && SameTies(r, s) {
      assert SameTies(r, Sort(s));
      SortedUnique(r, Sort(s));
    }
  }

  lemma {:induction false} TieClassAppend(s: seq<Task>, a: Task, d: int, p: Priority)
    ensures TieClass(s + [a], d, p) == TieClass(s, d, p) + (if a.date == d && a.priority == p then [a] else [])
  {
    if s != [] {
      TieClassAppend(s[1..], a, d, p);
      assert (s + [a])[1..] == s[1..] + [a];
    }
  }

  /** Picking a tie class and dropping an id commute. */
  lemma {:induction false} TieClassWithoutId(s: seq<Task>, id: int, d: int, p: Priority)
    ensures TieClass(WithoutId(s, id), d, p) == WithoutId(TieClass(s, d, p), id)
  {
    if s != [] {
      TieClassWithoutId(s[1..], id, d, p);
      var c := if s[0].date == d && s[0].priority == p then [s[0]] else [];
      var k := if s[0].id != id then [s[0]] else [];
      assert WithoutId(s, id) == k + WithoutId(s[1..], id);
      TieClassConcat(k, WithoutId(s[1..], id), d, p);
      WithoutIdConcat(c, TieClass(s[1..], d, p), id);
    }
  }

  lemma {:induction false} TieClassConcat(a: seq<Task>, b: seq<Task>, d: int, p: Priority)
    ensures TieClass(a + b, d, p) == TieClass(a, d, p) + TieClass(b, d, p)
  {
    if a != [] {
      var x := a[0];
      var c := if x.date == d && x.priority == p then [x] else [];
      var ta, tb := TieClass(a[1..], d, p), TieClass(b, d, p);
      var rest := a[1..] + b;
      TieClassConcat(a[1..], b, d, p);
      assert a == [x] + a[1..];
      assert a + b == [x] + rest;
      TieClassCons(x, rest, d, p);
      TieClassCons(x, a[1..], d, p);
      assert TieClass(a, d, p) == c + ta;
      assert TieClass(a + b, d, p) == c + (ta + tb);
      assert c + (ta + tb) == (c + ta) + tb;
    } else {
      assert a + b == b;
      assert TieClass(a, d, p) == [];
      assert TieClass(a, d, p) + TieClass(b, d, p) == TieClass(b, d, p);
    }
  }

  /** Sorting an already ordered list returns it unchanged. */
  lemma {:induction false} SortSorted(s: seq<Task>)
    requires Sorted(s)
    ensures Sort(s) == s
  {
    if s != [] {
      assert Sorted(s[1..]);
      SortSorted(s[1..]);
      assert s == [s[0]] + s[1..];
    }
  }

  /** `map` distributes over a leading element. */
  lemma MapCons(x: Task, t: seq<Task>, f: Task -> Task)
    ensures MapTasks([x] + t, f) == [f(x)] + MapTasks(t, f)
  {
    assert ([x] + t)[1..] == t;
  }

  /** The front case of `InsertMap`: `x` goes first, before and after the map. */
  lemma InsertMapFront(x: Task, t: seq<Task>, f: Task -> Task)
    requires forall e :: SameKey(f(e), e)
    requires t != [] && Precedes(x, t[0])
    ensures Insert(f(x), MapTasks(t, f)) == MapTasks(Insert(x, t), f)
  {
    var ft := MapTasks(t, f);
    assert ft[0] == f(t[0]);
    assert SameKey(f(x), x) && SameKey(ft[0], t[0]);
    assert Precedes(f(x), ft[0]);
    assert Insert(f(x), ft) == [f(x)] + ft;
    assert Insert(x, t) == [x] + t;
    MapCons(x, t, f);
  }

  /** The behind case of `InsertMap`: on both sides the head stays first and
      the insertion moves on to the tail. */
  lemma InsertMapBehind(x: Task, t: seq<Task>, f: Task -> Task)
    requires forall e :: SameKey(f(e), e)
    requires t != [] && !Precedes(x, t[0])
    ensures Insert(f(x), MapTasks(t, f)) == [f(t[0])] + Insert(f(x), MapTasks(t[1..], f))
    ensures MapTasks(Insert(x, t), f) == [f(t[0])] + MapTasks(Insert(x, t[1..]), f)
  {
    var ft := MapTasks(t, f);
    assert ft[0] == f(t[0]);
    assert ft[1..] == MapTasks(t[1..], f);
    assert SameKey(f(x), x) && SameKey(ft[0], t[0]);
    assert !Precedes(f(x), ft[0]);
    var rest := Insert(x, t[1..]);
    assert Insert(f(x), ft) == [ft[0]] + Insert(f(x), ft[1..]);
    assert Insert(x, t) == [t[0]] + rest;
    MapCons(t[0], rest, f);
  }

  /** Inserting commutes with a map that leaves every due date and priority alone. */
  lemma {:induction false} InsertMap(x: Task, t: seq<Task>, f: Task -> Task)
    requires forall e :: SameKey(f(e), e)
    ensures Insert(f(x), MapTasks(t, f)) == MapTasks(Insert(x, t), f)
  {
    if t == [] {
      assert Insert(x, t) == [x];
      assert MapTasks([x], f) == [f(x)];
    } else if Precedes(x, t[0]) {
      InsertMapFront(x, t, f);
    } else {
      InsertMap(x, t[1..], f);
      InsertMapBehind(x, t, f);
    }
  }

  /** Sorting commutes with a map that leaves every due date and priority alone. */
  lemma {:induction false} SortMap(s: seq<Task>, f: Task -> Task)
    requires forall e :: SameKey(f(e), e)
    ensures Sort(MapTasks(s, f)) == MapTasks(Sort(s), f)
  {
    if s != [] {
      var fs := MapTasks(s, f);
      assert fs[0] == f(s[0]);
      assert fs[1..] == MapTasks(s[1..], f);
      SortMap(s[1..], f);
      InsertMap(s[0], Sort(s[1..]), f);
    }
  }

  /** Removing tasks from an ordered list leaves it ordered. */
  lemma {:induction false} WithoutIdSorted(s: seq<Task>, id: int)
    requires Sorted(s)
    ensures Sorted(WithoutId(s, id))
  {
    if s != [] {
      assert Sorted(s[1..]);
      WithoutIdSorted(s[1..], id);
      WithoutIdMembers(s[1..], id);
      var rest := WithoutId(s[1..], id);
      assert forall e :: e in rest ==> Precedes(s[0], e) by {
        forall e | e in rest
          ensures Precedes(s[0], e)
        {
          assert e in s[1..];
        }
      }
    }
  }

  /** Inserts `x` after every task that precedes it or ties with it: where a
      stable sort puts a task appended at the end of an ordered list. */
  function InsertAfterTies(x: Task, t: seq<Task>): (r: seq<Task>)
    ensures multiset(r) == multiset(t) + multiset{x}
  {
    if t == [] || (Precedes(x, t[0]) && !SameKey(x, t[0])) then [x] + t
    else
      assert t == [t[0]] + t[1..];
      [t[0]] + InsertAfterTies(x, t[1..])
  }

  lemma {:induction false} InsertAfterTiesSorted(x: Task, t: seq<Task>)
    requires Sorted(t)
    ensures Sorted(InsertAfterTies(x, t))
  {
    if t == [] || (Precedes(x, t[0]) && !SameKey(x, t[0])) {
      assert forall e :: e in t ==> Precedes(x, e) by {
        forall e | e in t
          ensures Precedes(x, e)
        {
          var k :| 0 <= k < |t| && t[k] == e;
          if k > 0 {
            assert Precedes(t[0], t[k]);
          }
        }
      }
      SortedCons(x, t);
    } else {
      var rest := InsertAfterTies(x, t[1..]);
      assert Sorted(t[1..]);
      InsertAfterTiesSorted(x, t[1..]);
      assert forall e :: e in rest ==> Precedes(t[0], e) by {
        forall e | e in rest
          ensures Precedes(t[0], e)
        {
          assert e in multiset(rest);
          if e != x {
            var k :| 0 <= k < |t[1..]| && t[1..][k] == e;
            assert t[k + 1] == e;
          }
        }
      }
      SortedCons(t[0], rest);
    }
  }

  /** A list in which no task has key (d, p) has an empty tie class there. */
  lemma NoTieClass(t: seq<Task>, d: int, p: Priority)
    requires forall e :: e in t ==> !(e.date == d && e.priority == p)
    ensures TieClass(t, d, p) == []
  {
    TieClassMembers(t, d, p);
  }

  /** No task of an ordered list that `x` strictly precedes at its head
      shares the key of `x`. */
  lemma StrictlyBefore(x: Task, t: seq<Task>)
    requires Sorted(t) && t != [] && Precedes(x, t[0]) && !SameKey(x, t[0])
    ensures forall e :: e in t ==> !(e.date == x.date && e.priority == x.priority)
  {
    forall e | e in t
      ensures !(e.date == x.date && e.priority == x.priority)
    {
      var k :| 0 <= k < |t| && t[k] == e;
      if k > 0 {
        assert Precedes(t[0], t[k]);
      }
    }
  }

  /** The front case of `InsertAfterTiesStable`. */
  lemma InsertAfterTiesFront(x: Task, t: seq<Task>, d: int, p: Priority)
    requires Sorted(t)
    requires t == [] || (Precedes(x, t[0]) && !SameKey(x, t[0]))
    ensures TieClass([x] + t, d, p) == TieClass(t + [x], d, p)
  {
    TieClassAppend(t, x, d, p);
    TieClassCons(x, t, d, p);
    if x.date == d && x.priority == p {
      if t != [] {
        StrictlyBefore(x, t);
      }
      NoTieClass(t, d, p);
    }
  }

  /** On an ordered list, inserting after the ties gives the tie classes of
      appending at the end. */
  lemma {:induction false} InsertAfterTiesStable(x: Task, t: seq<Task>, d: int, p: Priority)
    requires Sorted(t)
    ensures TieClass(InsertAfterTies(x, t), d, p) == TieClass(t + [x], d, p)
  {
    if t == [] || (Precedes(x, t[0]) && !SameKey(x, t[0])) {
      InsertAfterTiesFront(x, t, d, p);
    } else {
      var rest := InsertAfterTies(x, t[1..]);
      assert InsertAfterTies(x, t) == [t[0]] + rest;
      assert Sorted(t[1..]);
      InsertAfterTiesStable(x, t[1..], d, p);
      TieClassCons(t[0], rest, d, p);
      assert t + [x] == [t[0]] + (t[1..] + [x]);
      TieClassCons(t[0], t[1..] + [x], d, p);
    }
  }

  lemma {:induction false} SubsequenceOfSelf(s: seq<Task>)
    ensures SubsequenceOf(s, s)
  {
    if s != [] {
      SubsequenceOfSelf(s[1..]);
    }
  }

  /** Inserting a task keeps the others in their relative order. */
  lemma {:induction false} InsertAfterTiesKeepsOrder(x: Task, t: seq<Task>)
    ensures SubsequenceOf(t, InsertAfterTies(x, t))
  {
    if t == [] {
    } else if Precedes(x, t[0]) && !SameKey(x, t[0]) {
      SubsequenceOfSelf(t);
      assert ([x] + t)[1..] == t;
    } else {
      InsertAfterTiesKeepsOrder(x, t[1..]);
      var r := InsertAfterTies(x, t);
      assert r[0] == t[0] && r[1..] == InsertAfterTies(x, t[1..]);
    }
  }

  /** Sorting an ordered list with one task appended inserts that task
      right after its ties. */
  lemma SortAppended(t: seq<Task>, x: Task)
    requires Sorted(t)
    ensures Sort(t + [x]) == InsertAfterTies(x, t)
  {
    InsertAfterTiesSorted(x, t);
    forall d, p
      ensures TieClass(InsertAfterTies(x, t), d, p) == TieClass(t + [x], d, p)
    {
      InsertAfterTiesStable(x, t, d, p);
    }
    SortCharacterized(t + [x], InsertAfterTies(x, t));
  }
}
