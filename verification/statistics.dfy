/** The statistics views: the per-priority counts that `App.jsx`'s
    `PriorityDistribution` and the `Statistics` component both compute with
    the same `reduce`, and the completion figures of `App.jsx`'s
    `TaskCompletion` and of `Statistics`. Percentages are computed with
    exact rational arithmetic (see README). */
module Statistics {
  import opened Wrappers
  import opened Tasks
  import Format

  /** Reference count: the tasks of `s` with priority `p`. */
  function CountPriority(s: seq<Task>, p: Priority): (n: nat)
    ensures n <= |s|
  {
    if s == [] then 0 else (if s[0].priority == p then 1 else 0) + CountPriority(s[1..], p)
  }

  /** `acc[key] || 0`. */
  function Get(acc: map<Priority, nat>, p: Priority): nat {
    if p in acc then acc[p] else 0
  }

  /** `tasks.reduce((acc, task) => { acc[task.priority] = (acc[task.priority] || 0) + 1; return acc; }, acc)`. */
  function Tally(s: seq<Task>, acc: map<Priority, nat>): map<Priority, nat>
    decreases |s|
  {
    if s == [] then acc
    else Tally(s[1..], acc[s[0].priority := Get(acc, s[0].priority) + 1])
  }

  lemma {:induction false} TallyCounts(s: seq<Task>, acc: map<Priority, nat>, p: Priority)
    ensures Get(Tally(s, acc), p) == Get(acc, p) + CountPriority(s, p)
    decreases |s|
  {
    if s != [] {
      TallyCounts(s[1..], acc[s[0].priority := Get(acc, s[0].priority) + 1], p);
    }
  }

  datatype Distribution = Distribution(high: nat, medium: nat, low: nat)

  /** The displayed counts `priorityDistribution.high || 0` etc.; an absent
      task list (`tasks?.reduce(..) || {}`) shows zeros. */
  function PriorityDistribution(tasks: Option<seq<Task>>): (r: Distribution)
    ensures tasks == None ==> r == Distribution(0, 0, 0)
    ensures tasks.Some? ==>
      && r.high == CountPriority(tasks.value, High)
      && r.medium == CountPriority(tasks.value, Medium)
      && r.low == CountPriority(tasks.value, Low)
  {
    match tasks
    case None => Distribution(0, 0, 0)
    case Some(s) =>
      var acc := Tally(s, map[]);
      TallyCounts(s, map[], High);
      TallyCounts(s, map[], Medium);
      TallyCounts(s, map[], Low);
      Distribution(Get(acc, High), Get(acc, Medium), Get(acc, Low))
  }

  /** Every task has one of the three priorities, so the counts add up to
      the number of tasks. */
  lemma {:induction false} DistributionTotal(s: seq<Task>)
    ensures var d := PriorityDistribution(Some(s)); d.high + d.medium + d.low == |s|
  {
    if s != [] {
      DistributionTotal(s[1..]);
    }
  }

  lemma {:induction false} CountConcat(a: seq<Task>, b: seq<Task>, p: Priority)
    ensures CountPriority(a + b, p) == CountPriority(a, p) + CountPriority(b, p)
  {
    if a != [] {
      CountConcat(a[1..], b, p);
      assert (a + b)[1..] == a[1..] + b;
    } else {
      assert a + b == b;
    }
  }

  lemma RemoveAt(b: seq<Task>, j: nat)
    requires j < |b|
    ensures multiset(b[..j] + b[j + 1..]) == multiset(b) - multiset{b[j]}
  {
    assert b == b[..j] + [b[j]] + b[j + 1..];
  }

  lemma CountRemoveAt(b: seq<Task>, j: nat, p: Priority)
    requires j < |b|
    ensures CountPriority(b, p) == CountPriority(b[..j] + b[j + 1..], p) + (if b[j].priority == p then 1 else 0)
  {
    var x := b[j];
    assert b == b[..j] + [x] + b[j + 1..];
    CountConcat(b[..j] + [x], b[j + 1..], p);
    CountConcat(b[..j], [x], p);
    CountConcat(b[..j], b[j + 1..], p);
    assert [x][1..] == [];
    assert CountPriority([x], p) == (if x.priority == p then 1 else 0);
  }

  lemma {:induction false} CountPermutation(a: seq<Task>, b: seq<Task>, p: Priority)
    requires multiset(a) == multiset(b)
    ensures CountPriority(a, p) == CountPriority(b, p)
    decreases |a|
  {
    if a == [] {
      assert |b| == |multiset(b)| == 0;
    } else {
      var x := a[0];
      assert x in multiset(b);
      assert x in b;
      var j :| 0 <= j < |b| && b[j] == x;
      var rest := b[..j] + b[j + 1..];
      assert a == [x] + a[1..];
      assert multiset(a[1..]) == multiset(a) - multiset{x};
      RemoveAt(b, j);
      CountPermutation(a[1..], rest, p);
      CountRemoveAt(b, j, p);
    }
  }

  /** The counts do not depend on the order of the tasks. */
  lemma DistributionPermutation(a: seq<Task>, b: seq<Task>)
    requires multiset(a) == multiset(b)
    ensures PriorityDistribution(Some(a)) == PriorityDistribution(Some(b))
  {
    CountPermutation(a, b, High);
    CountPermutation(a, b, Medium);
    CountPermutation(a, b, Low);
  }

  /** `tasks.filter((t) => t.completed).length`. */
  function CompletedCount(s: seq<Task>): (n: nat)
    ensures n <= |s|
    ensures n == |s| <==> forall i :: 0 <= i < |s| ==> s[i].completed
    ensures n == 0 <==> forall i :: 0 <= i < |s| ==> !s[i].completed
  {
    if s == [] then 0
    else
      assert forall i :: 0 < i < |s| ==> s[i] == s[1..][i - 1];
      (if s[0].completed then 1 else 0) + CompletedCount(s[1..])
  }

  lemma MulMono(a: int, b: int, n: nat)
    requires a <= b
    ensures a * n <= b * n
  {
    assert b * n - a * n == (b - a) * n;
  }

  /** `Math.round(x)` for a non-negative rational `x = num / den`: the nearest
      integer, halves rounded up. */
  function RoundHalfUp(num: nat, den: nat): (r: nat)
    requires den > 0
    ensures 2 * num - den < 2 * r * den <= 2 * num + den
  {
    var q := (2 * num + den) / (2 * den);
    assert (2 * num + den) == q * (2 * den) + (2 * num + den) % (2 * den);
    q
  }

  /** Rounding never passes a whole-number bound of the exact value. */
  lemma RoundAtMost(num: nat, den: nat, k: nat)
    requires den > 0 && num <= k * den
    ensures RoundHalfUp(num, den) <= k
  {
    var r := RoundHalfUp(num, den);
    if r >= k + 1 {
      MulMono(k + 1, r, den);
      assert false;
    }
  }

  /** A whole number rounds to itself. */
  lemma RoundExact(k: nat, den: nat)
    requires den > 0
    ensures RoundHalfUp(k * den, den) == k
  {
    var r := RoundHalfUp(k * den, den);
    if r >= k + 1 {
      MulMono(k + 1, r, den);
      assert false;
    }
    if r + 1 <= k {
      MulMono(r + 1, k, den);
      assert false;
    }
  }

  /** `TaskCompletion`'s percentage: 0 without tasks, otherwise the
      completed share of the tasks in percent, rounded to the nearest
      integer (halves up); all tasks done shows 100, none done shows 0. */
  function CompletionPercent(s: seq<Task>): (r: nat)
    ensures s == [] ==> r == 0
    ensures r <= 100
    ensures s != [] ==> 2 * 100 * CompletedCount(s) - |s| < 2 * r * |s| <= 2 * 100 * CompletedCount(s) + |s|
    ensures CompletedCount(s) == |s| && s != [] ==> r == 100
    ensures CompletedCount(s) == 0 ==> r == 0
  {
    if |s| > 0 then
      var c := CompletedCount(s);
      MulMono(c, |s|, 100);
      RoundAtMost(100 * c, |s|, 100);
      RoundExact(100, |s|);
      RoundExact(0, |s|);
      RoundHalfUp(100 * c, |s|)
    else 0
  }

  /** The completion rate in hundredths of a percent, as `toFixed(2)` rounds
      it: the nearest integer, the larger one on a tie. */
  function CompletionHundredths(s: seq<Task>): (n: nat)
    requires s != []
    ensures n <= 10000
    ensures 2 * 10000 * CompletedCount(s) - |s| < 2 * n * |s| <= 2 * 10000 * CompletedCount(s) + |s|
    ensures CompletedCount(s) == |s| ==> n == 10000
    ensures CompletedCount(s) == 0 ==> n == 0
  {
    var c := CompletedCount(s);
    MulMono(c, |s|, 10000);
    RoundAtMost(10000 * c, |s|, 10000);
    RoundExact(10000, |s|);
    RoundExact(0, |s|);
    RoundHalfUp(10000 * c, |s|)
  }

  /** The percentage `App.jsx`'s `PriorityDistribution` shows for one
      priority: its share of the tasks in percent, rounded to the nearest
      integer (halves up). Without tasks the division is 0 / 0 and the
      figure is `NaN`, here `None`. */
  function PriorityPercent(s: seq<Task>, p: Priority): (r: Option<nat>)
    ensures r == None <==> s == []
    ensures r.Some? ==>
      && r.value <= 100
      && 2 * 100 * CountPriority(s, p) - |s| < 2 * r.value * |s| <= 2 * 100 * CountPriority(s, p) + |s|
  {
    if s == [] then None
    else
      MulMono(CountPriority(s, p), |s|, 100);
      RoundAtMost(100 * CountPriority(s, p), |s|, 100);
      Some(RoundHalfUp(100 * CountPriority(s, p), |s|))
  }

  lemma Distrib3(a: int, b: int, c: int, n: int)
    ensures 2 * a * n + 2 * b * n + 2 * c * n == 2 * ((a + b + c) * n)
  {
    assert (a + b + c) * n == a * n + b * n + c * n;
  }

  /** Three values each rounded from a share of `n` to whole percent add up
      to within one of 100 when the shares add up to `n`. */
  lemma RoundedSharesNearHundred(rh: nat, rm: nat, rl: nat, ch: nat, cm: nat, cl: nat, n: nat)
    requires n > 0 && ch + cm + cl == n
    requires 2 * 100 * ch - n < 2 * rh * n <= 2 * 100 * ch + n
    requires 2 * 100 * cm - n < 2 * rm * n <= 2 * 100 * cm + n
    requires 2 * 100 * cl - n < 2 * rl * n <= 2 * 100 * cl + n
    ensures 99 <= rh + rm + rl <= 101
  {
    var total := rh + rm + rl;
    var p := total * n;
    Distrib3(rh, rm, rl, n);
    assert 2 * rh * n + 2 * rm * n + 2 * rl * n == 2 * p;
    assert 197 * n < 2 * p;
    assert 2 * p <= 203 * n;
    if total <= 98 {
      MulMono(total, 98, n);
      assert false;
    }
    if total >= 102 {
      MulMono(102, total, n);
      assert false;
    }
  }

  /** The three displayed percentages need not add up to 100, but rounding
      moves their sum by at most one. */
  lemma PercentsNearHundred(s: seq<Task>)
    requires s != []
    ensures var h, m, l := PriorityPercent(s, High).value, PriorityPercent(s, Medium).value, PriorityPercent(s, Low).value;
      99 <= h + m + l <= 101
  {
    DistributionTotal(s);
    RoundedSharesNearHundred(
      PriorityPercent(s, High).value, PriorityPercent(s, Medium).value, PriorityPercent(s, Low).value,
      CountPriority(s, High), CountPriority(s, Medium), CountPriority(s, Low), |s|);
  }

  /** The `Statistics` component's `completionRate`: the fixed text "0.00"
      for an absent or empty list, otherwise the percentage to two places. */
  function CompletionRate(tasks: Option<seq<Task>>): (r: string)
    ensures tasks == None || tasks == Some([]) ==> r == "0.00"
    ensures tasks.Some? && tasks.value != [] ==> Format.ParseFixed(r) == Some(CompletionHundredths(tasks.value))
    ensures |r| > 4 ==> r[0] != '0'
    ensures tasks.Some? && tasks.value != [] && CompletedCount(tasks.value) == |tasks.value| ==> r == "100.00"
    ensures tasks.Some? && tasks.value != [] && CompletedCount(tasks.value) == 0 ==> r == "0.00"
  {
    if tasks.Some? && |tasks.value| > 0 then
      var h := CompletionHundredths(tasks.value);
      Format.FixedTwoRoundTrip(h);
      Format.FixedTwoEnds();
      Format.FixedTwo(h)
    else "0.00"
  }

  /** `Statistics` rendered without a task list (as the tabbed `App` of
      `Model A.jsx` does) shows zero counts and a "0.00" rate. */
  lemma StatisticsWithoutTasks()
    ensures PriorityDistribution(None) == Distribution(0, 0, 0)
    ensures CompletionRate(None) == "0.00"
  {
  }
}
