/** The countdown timer. `App.jsx` and the `PomodoroTimer` component keep the
    same three pieces of state (time left, running flag, completed sessions)
    plus a daily goal, and drive them with the same effect. The effect is
    split into its two halves: `Tick`, the one-second interval callback that
    exists only while the timer is armed, and `Settle`, the `timeLeft === 0`
    branch that runs as soon as the state has changed. Every user action is
    followed by `Settle`, because the effect re-runs after each change of its
    dependencies. */
module Timer {

  /** `25 * 60`: the initial and reload value of the countdown, in seconds. */
  const Duration: int := 25 * 60

  /** The initial daily goal. */
  const DefaultGoal: int := 4

  /** The timer state: seconds left, the running flag, completed sessions, daily goal. */
  datatype Clock = Clock(timeLeft: int, running: bool, sessions: int, goal: int)

  /** The state both components start from. */
  function Initial(): Clock {
    Clock(Duration, false, 0, DefaultGoal)
  }

  /** The effect installs the one-second interval exactly in this state. */
  predicate Armed(s: Clock) {
    s.running && s.timeLeft > 0
  }

  /** A state the effect leaves alone. */
  predicate Settled(s: Clock) {
    s.timeLeft != 0
  }

  /** The interval callback `setTimeLeft(prev => prev - 1)`; with no interval
      installed, no tick arrives and nothing changes. */
  function Tick(s: Clock): Clock {
    if Armed(s) then s.(timeLeft := s.timeLeft - 1) else s
  }

  /** The effect's zero branch: stop, count a session, reload 25 minutes.
      It fires whenever the time left is exactly zero, running or not. */
  function Settle(s: Clock): (r: Clock)
    ensures Settled(r)
    ensures Settled(s) ==> r == s
  {
    if !Armed(s) && s.timeLeft == 0 then
      s.(running := false, sessions := s.sessions + 1, timeLeft := Duration)
    else s
  }

  /** One second of wall-clock time: a tick and the effect it triggers. */
  function Step(s: Clock): (r: Clock)
    ensures r.goal == s.goal
    ensures Armed(s) && s.timeLeft > 1 ==> r == s.(timeLeft := s.timeLeft - 1)
    ensures Armed(s) && s.timeLeft == 1 ==>
      r == s.(timeLeft := Duration, running := false, sessions := s.sessions + 1)
    ensures !s.running && Settled(s) ==> r == s
  {
    Settle(Tick(s))
  }

  /** `k` seconds of wall-clock time. */
  function Steps(s: Clock, k: nat): Clock
    decreases k
  {
    if k == 0 then s else Steps(Step(s), k - 1)
  }

  /** `toggleTimer` / `toggle`: flip the running flag. */
  function Toggle(s: Clock): (r: Clock)
    ensures Settled(s) ==> r == s.(running := !s.running)
  {
    Settle(s.(running := !s.running))
  }

  /** `resetTimer` / `reset`. */
  function Reset(s: Clock): (r: Clock)
    ensures r.timeLeft == Duration && !r.running
    ensures r.sessions == s.sessions && r.goal == s.goal
  {
    Settle(s.(running := false, timeLeft := Duration))
  }

  /** `setCustomTime(minutes)`: no range check. Zero minutes leaves the time
      at zero, so the effect's zero branch counts a session and reloads. */
  function SetCustomTime(s: Clock, minutes: int): (r: Clock)
    ensures !r.running && r.goal == s.goal
    ensures minutes != 0 ==> r.timeLeft == minutes * 60 && r.sessions == s.sessions
    ensures minutes == 0 ==> r.timeLeft == Duration && r.sessions == s.sessions + 1
  {
    Settle(s.(timeLeft := minutes * 60, running := false))
  }

  /** `setDailyGoal` / `setGoal`: stores the value unvalidated. */
  function SetGoal(s: Clock, n: int): (r: Clock)
    ensures r.goal == n
    ensures r.(goal := s.goal) == s
  {
    s.(goal := n)
  }

  /** Toggling twice is the identity on every state the effect leaves alone. */
  lemma ToggleTwice(s: Clock)
    requires Settled(s)
    ensures Toggle(Toggle(s)) == s
  {
  }

  /** A stopped timer does not move, however long one waits. */
  lemma {:induction false} StoppedIsFrozen(s: Clock, k: nat)
    requires !s.running && Settled(s)
    ensures Steps(s, k) == s
    decreases k
  {
    if k > 0 {
      StoppedIsFrozen(Step(s), k - 1);
    }
  }

  /** Before the countdown reaches zero, each second removes exactly one
      second and nothing else changes. */
  lemma {:induction false} CountingDown(s: Clock, k: nat)
    requires s.running && k < s.timeLeft
    ensures Steps(s, k) == s.(timeLeft := s.timeLeft - k)
    decreases k
  {
    if k > 0 {
      CountingDown(Step(s), k - 1);
    }
  }

  /** Running from `n` seconds left, exactly `n` seconds complete one session:
      the timer stops with 25 minutes reloaded. */
  lemma {:induction false} Countdown(s: Clock)
    requires s.running && s.timeLeft > 0
    ensures Steps(s, s.timeLeft) == s.(timeLeft := Duration, running := false, sessions := s.sessions + 1)
    decreases s.timeLeft
  {
    if s.timeLeft > 1 {
      Countdown(Step(s));
    }
  }

  /** Started fresh, 1500 seconds later one session is complete and the timer
      is back in its initial state otherwise. */
  lemma FullSession()
    ensures Steps(Toggle(Initial()), Duration) == Initial().(sessions := 1)
  {
    Countdown(Toggle(Initial()));
  }

  /** A running timer with three seconds left: after three seconds it is
      stopped, one session is counted and 25 minutes are reloaded. */
  lemma ThreeSecondsLeft(sessions: int, goal: int)
    ensures Steps(Clock(3, true, sessions, goal), 3) == Clock(Duration, false, sessions + 1, goal)
  {
    Countdown(Clock(3, true, sessions, goal));
  }

  /** The states reachable without a negative custom time: a positive
      countdown and a non-negative session count. */
  predicate Healthy(s: Clock) {
    s.timeLeft > 0 && s.sessions >= 0
  }

  /** Ticks, toggles and resets keep the countdown positive; a custom time
      keeps it positive exactly when the minutes are not negative. */
  lemma HealthPreserved(s: Clock, minutes: int, n: int)
    requires Healthy(s)
    ensures Healthy(Step(s)) && Healthy(Toggle(s)) && Healthy(Reset(s)) && Healthy(SetGoal(s, n))
    ensures Healthy(SetCustomTime(s, minutes)) <==> minutes >= 0
  {
  }

  /** A negative custom time is accepted and then stalls the timer: started,
      it neither counts down nor ever completes a session. */
  lemma {:induction false} NegativeTimeStalls(s: Clock, minutes: int, k: nat)
    requires minutes < 0
    ensures Steps(Toggle(SetCustomTime(s, minutes)), k) == Toggle(SetCustomTime(s, minutes))
    decreases k
  {
    var t := Toggle(SetCustomTime(s, minutes));
    assert t.running && t.timeLeft < 0;
    if k > 0 {
      assert Step(t) == t;
      NegativeTimeStalls(s, minutes, k - 1);
    }
  }
}
