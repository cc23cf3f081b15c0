// ThreadCondition: a flag, a mutex and a condition variable, used by any number of threads.
// Each step is one that the code can be interrupted before and after. signal and broadcast
// write the flag without the mutex, so they can fall between a waiter's test and its sleep.
module Condition {
  import opened Bytes

  // Where a thread is. Asleep: inside pthread_cond_wait. Woken: still inside it, waiting for
  // the mutex; expired says that the deadline of a timed wait ended the sleep.
  datatype Pc =
    | Idle
    | Locking(timed: bool)
    | Testing(timed: bool)
    | Parking(timed: bool)
    | Asleep(timed: bool)
    | Woken(timed: bool, expired: bool)
    | Taking
    | Leaving(result: bool)
    | Notifying(all: bool)

  // signals counts the calls of signal and broadcast from their write of the flag on, merged
  // those that found it set already; taken counts the waits that cleared it, returned those
  // that are back with true.
  datatype State = State(flag: bool, holder: Option<nat>, pcs: seq<Pc>,
                         signals: nat, merged: nat, taken: nat, returned: nat)

  datatype Action =
    | CallWait(t: nat, timed: bool)
    | Lock(t: nat)
    | Test(t: nat)
    | Park(t: nat)
    | WakeSpuriously(t: nat)
    | Expire(t: nat)
    | Reacquire(t: nat)
    | Take(t: nat)
    | Unlock(t: nat)
    | CallSignal(t: nat, all: bool)
    | Notify(t: nat, wake: set<nat>)

  predicate Initial(s: State) {
    && !s.flag && s.holder == None && s.signals == s.merged == s.taken == s.returned == 0
    && forall t :: 0 <= t < |s.pcs| ==> s.pcs[t] == Idle
  }

  predicate Sleeps(s: State, t: nat) {
    t < |s.pcs| && s.pcs[t].Asleep?
  }

  // pthread_cond_signal wakes at least one sleeper if there is any, broadcast all of them.
  predicate Wakes(s: State, all: bool, wake: set<nat>) {
    && (forall u :: u in wake ==> Sleeps(s, u))
    && (forall u :: 0 <= u < |s.pcs| && s.pcs[u].Asleep? ==> wake != {} && (all ==> u in wake))
  }

  predicate Enabled(s: State, a: Action) {
    && a.t < |s.pcs|
    && var pc := s.pcs[a.t];
       match a
       case CallWait(_, _) => pc == Idle
       case Lock(_) => pc.Locking? && s.holder == None
       case Test(_) => pc.Testing?
       case Park(_) => pc.Parking?
       case WakeSpuriously(_) => pc.Asleep?
       case Expire(_) => pc.Asleep? && pc.timed
       case Reacquire(_) => pc.Woken? && s.holder == None
       case Take(_) => pc.Taking?
       case Unlock(_) => pc.Leaving?
       case CallSignal(_, _) => pc == Idle
       case Notify(_, wake) => pc.Notifying? && Wakes(s, pc.all, wake)
  }

  function Goes(s: State, t: nat, pc: Pc): State
    requires t < |s.pcs|
  {
    s.(pcs := s.pcs[t := pc])
  }

  function WakeAll(pcs: seq<Pc>, wake: set<nat>): (ps: seq<Pc>)
    ensures |ps| == |pcs|
    ensures forall u :: 0 <= u < |pcs| ==>
      ps[u] == if u in wake && pcs[u].Asleep? then Woken(pcs[u].timed, false) else pcs[u]
  {
    seq(|pcs|, u requires 0 <= u < |pcs| => if u in wake && pcs[u].Asleep? then Woken(pcs[u].timed, false) else pcs[u])
  }

  function Do(s: State, a: Action): State
    requires Enabled(s, a)
  {
    var t, pc := a.t, s.pcs[a.t];
    match a
    case CallWait(_, timed) => Goes(s, t, Locking(timed))
    case Lock(_) => Goes(s, t, Testing(pc.timed)).(holder := Some(t))
    case Test(_) => Goes(s, t, if s.flag then Taking else Parking(pc.timed))
    case Park(_) => Goes(s, t, Asleep(pc.timed)).(holder := None)
    case WakeSpuriously(_) => Goes(s, t, Woken(pc.timed, false))
    case Expire(_) => Goes(s, t, Woken(true, true))
    case Reacquire(_) => Goes(s, t, if pc.expired then Leaving(false) else Testing(pc.timed)).(holder := Some(t))
    case Take(_) => Goes(s, t, Leaving(true)).(flag := false, taken := s.taken + 1)
    case Unlock(_) => Goes(s, t, Idle).(holder := None, returned := s.returned + if pc.result then 1 else 0)
    case CallSignal(_, all) =>
      Goes(s, t, Notifying(all)).(flag := true, signals := s.signals + 1, merged := s.merged + if s.flag then 1 else 0)
    case Notify(_, wake) => Goes(s.(pcs := WakeAll(s.pcs, wake)), t, Idle)
  }

  predicate Leads(s: State, a: Action, r: State) {
    Enabled(s, a) && r == Do(s, a)
  }

  // An interleaving: the states between the actions, one more than there are actions.
  ghost predicate Run(ss: seq<State>, acts: seq<Action>) {
    && |ss| == |acts| + 1 && Initial(ss[0])
    && forall i :: 0 <= i < |acts| ==> Leads(ss[i], acts[i], ss[i + 1])
  }

  // The threads inside the critical section.
  predicate Inside(pc: Pc) {
    pc.Testing? || pc.Parking? || pc.Taking? || pc.Leaving?
  }

  // The mutex excludes, whoever is about to clear the flag finds it set, and every signal is
  // accounted for: taken by one wait, merged into an earlier one, or still pending.
  predicate Safe(s: State) {
    && (forall t :: 0 <= t < |s.pcs| ==> (Inside(s.pcs[t]) <==> s.holder == Some(t)))
    && (s.holder.Some? ==> s.holder.value < |s.pcs|)
    && (forall t :: 0 <= t < |s.pcs| && s.pcs[t].Taking? ==> s.flag)
    && s.signals == s.taken + s.merged + (if s.flag then 1 else 0)
    && s.taken == s.returned + (if s.holder.Some? && s.pcs[s.holder.value] == Leaving(true) then 1 else 0)
  }

  lemma SafeStep(s: State, a: Action)
    requires Safe(s) && Enabled(s, a)
    ensures Safe(Do(s, a))
  {
  }

  lemma {:induction false} SafeRun(ss: seq<State>, acts: seq<Action>, n: nat)
    requires Run(ss, acts) && n < |ss|
    ensures Safe(ss[n])
  {
    if n > 0 {
      SafeRun(ss, acts, n - 1);
      SafeStep(ss[n - 1], acts[n - 1]);
    }
  }

  // In every interleaving the waits that returned true never outnumber the signals, and each
  // signal was taken, merged or is pending.
  lemma TrueReturnsBounded(ss: seq<State>, acts: seq<Action>, n: nat)
    requires Run(ss, acts) && n < |ss|
    ensures ss[n].returned <= ss[n].taken <= ss[n].signals
    ensures ss[n].signals == ss[n].taken + ss[n].merged + (if ss[n].flag then 1 else 0)
  {
    SafeRun(ss, acts, n);
  }

  // A wait decides for true only while it holds the mutex and the flag is set.
  lemma TrueFindsFlag(ss: seq<State>, acts: seq<Action>, n: nat)
    requires Run(ss, acts) && n < |acts| && ss[n + 1].taken > ss[n].taken
    ensures acts[n].Take? && ss[n].flag && ss[n].holder == Some(acts[n].t) && !ss[n + 1].flag
    ensures ss[n + 1].pcs[acts[n].t] == Leaving(true)
  {
    SafeRun(ss, acts, n);
  }

  // A pending signal stays pending until a wait that returns true takes it: time-outs, however
  // many, do not consume it.
  lemma {:induction false} PendingStays(ss: seq<State>, acts: seq<Action>, m: nat, n: nat)
    requires Run(ss, acts) && m <= n < |ss| && ss[m].flag
    ensures ss[n].taken >= ss[m].taken && (ss[n].taken == ss[m].taken ==> ss[n].flag)
  {
    if m < n {
      PendingStays(ss, acts, m, n - 1);
    }
  }

  // ---- What one wait does ----

  // Every notification of all wakes every sleeper, one of a single wakes at least one if there is
  // any, and nobody but sleepers and the caller moves.
  lemma NotifyWakes(s: State, a: Action)
    requires Enabled(s, a) && a.Notify?
    ensures var r := Do(s, a);
            && (s.pcs[a.t] == Notifying(true) ==> forall u :: !Sleeps(r, u))
            && ((exists u :: Sleeps(s, u)) ==> exists u: nat :: Sleeps(s, u) && !Sleeps(r, u))
            && forall u :: 0 <= u < |s.pcs| && u != a.t ==>
                 r.pcs[u] == s.pcs[u] || (Sleeps(s, u) && r.pcs[u] == Woken(s.pcs[u].timed, false))
  {
    if u :| Sleeps(s, u) {
      var w :| w in a.wake;
      assert Sleeps(s, w) && Do(s, a).pcs[w] == Woken(s.pcs[w].timed, false);
    }
  }

  // A thread that wants the mutex.
  predicate Wants(pc: Pc) {
    pc.Locking? || pc.Woken?
  }

  function Sleepers(pcs: seq<Pc>): (us: set<nat>)
    ensures forall u: nat :: u in us <==> u < |pcs| && pcs[u].Asleep?
  {
    set u: nat | u < |pcs| && pcs[u].Asleep?
  }

  // Nobody is held up but by the mutex: a thread can take a step unless it wants the mutex and
  // another one has it, and that one can go on.
  lemma CanMoveIff(s: State, t: nat)
    requires Safe(s) && t < |s.pcs|
    ensures (exists a: Action :: a.t == t && Enabled(s, a)) <==> !(Wants(s.pcs[t]) && s.holder.Some?)
    ensures s.holder.Some? ==> !Wants(s.pcs[s.holder.value])
    ensures Sleeps(s, t) ==> Enabled(s, WakeSpuriously(t)) && (Enabled(s, Expire(t)) <==> s.pcs[t].timed)
  {
    if !(Wants(s.pcs[t]) && s.holder.Some?) {
      var a := match s.pcs[t]
        case Idle => CallWait(t, false)
        case Locking(_) => Lock(t)
        case Testing(_) => Test(t)
        case Parking(_) => Park(t)
        case Asleep(_) => WakeSpuriously(t)
        case Woken(_, _) => Reacquire(t)
        case Taking => Take(t)
        case Leaving(_) => Unlock(t)
        case Notifying(_) => Notify(t, Sleepers(s.pcs));
      assert a.t == t && Enabled(s, a);
    }
  }

  // Nothing else that threads share is touched.
  predicate Untouched(s: State, r: State) {
    r.flag == s.flag && r.signals == s.signals && r.merged == s.merged && r.taken == s.taken
  }

  // Whatever the other threads do, one whose deadline has passed, or that is on its way out, stays
  // where it is.
  lemma OthersLeave(s: State, a: Action, t: nat)
    requires Enabled(s, a) && a.t != t && t < |s.pcs| && !s.pcs[t].Asleep?
    ensures Do(s, a).pcs[t] == s.pcs[t]
  {
  }

  // Its own next step is to get the mutex back and to decide for false, the one after to let the
  // mutex go: neither takes the flag nor counts as a return with true.
  lemma ExpiredGoesOn(s: State, a: Action)
    requires Enabled(s, a)
    ensures s.pcs[a.t].Woken? && s.pcs[a.t].expired ==>
      && a == Reacquire(a.t) && Do(s, a).pcs[a.t] == Leaving(false) && Do(s, a).holder == Some(a.t)
      && Untouched(s, Do(s, a)) && Do(s, a).returned == s.returned
    ensures s.pcs[a.t] == Leaving(false) ==>
      && a == Unlock(a.t) && Do(s, a).pcs[a.t] == Idle && Do(s, a).holder == None
      && Untouched(s, Do(s, a)) && Do(s, a).returned == s.returned
  {
  }

  predicate At(s: State, t: nat, pc: Pc) {
    t < |s.pcs| && s.pcs[t] == pc
  }

  // No step of t falls between the states m and n.
  predicate Rests(acts: seq<Action>, m: nat, n: nat, t: nat)
    requires n <= |acts|
  {
    forall i :: m <= i < n ==> acts[i].t != t
  }

  // From the deadline on, t takes two steps and no others: it gets the mutex back, and lets it go
  // deciding for false.
  lemma {:induction false} TimeOut(ss: seq<State>, acts: seq<Action>, m: nat, n: nat, t: nat)
    returns (back: nat, out: nat)
    requires Run(ss, acts) && m < n <= |acts| && acts[m] == Expire(t)
    ensures m < back <= n && Rests(acts, m + 1, back, t)
    ensures back == n ==> At(ss[n], t, Woken(true, true)) && out == n
    ensures back < n ==> && acts[back] == Reacquire(t) && back < out <= n && Rests(acts, back + 1, out, t)
                         && Untouched(ss[back], ss[back + 1]) && ss[back + 1].returned == ss[back].returned
    ensures back < n && out == n ==> At(ss[n], t, Leaving(false))
    ensures out < n ==> && acts[out] == Unlock(t) && At(ss[out], t, Leaving(false)) && At(ss[out + 1], t, Idle)
                        && Untouched(ss[out], ss[out + 1]) && ss[out + 1].returned == ss[out].returned
    ensures t < |ss[n].pcs|
  {
    var a, s := acts[n - 1], ss[n - 1];
    assert Leads(s, a, ss[n - 1 + 1]);
    if n == m + 1 {
      back, out := n, n;
    } else {
      back, out := TimeOut(ss, acts, m, n - 1, t);
      if a.t == t {
        ExpiredGoesOn(s, a);
      } else if out == n - 1 {
        OthersLeave(s, a, t);
      }
      if out == n - 1 {
        out := if back == n - 1 || a.t != t then n else n - 1;
        back := if back == n - 1 && a.t != t then n else back;
      }
    }
  }

  // The call of wait() that t is in: where it began, and whether its deadline has passed.
  ghost predicate InWait(acts: seq<Action>, c: nat, n: nat, t: nat, timed: bool, expired: bool)
    requires n <= |acts|
  {
    && c < n && acts[c] == CallWait(t, timed)
    && (forall i :: c < i < n && acts[i].t == t ==> !acts[i].CallWait?)
    && (expired <==> exists i :: c < i < n && acts[i] == Expire(t))
  }

  // Inside a wait the thread's place tells whether the call has a deadline and whether it passed.
  ghost predicate Called(s: State, acts: seq<Action>, c: nat, n: nat, t: nat, timed: bool)
    requires n <= |acts| && t < |s.pcs|
  {
    var pc := s.pcs[t];
    var expired := (pc.Woken? && pc.expired) || pc == Leaving(false);
    && InWait(acts, c, n, t, timed, expired) && (expired ==> timed)
    && (pc.Locking? || pc.Testing? || pc.Parking? || pc.Asleep? || pc.Woken? ==> pc.timed == timed)
  }

  predicate Waiting(s: State, t: nat) {
    t < |s.pcs| && s.pcs[t] != Idle && !s.pcs[t].Notifying?
  }

  lemma CalledStep(s: State, acts: seq<Action>, c: nat, n: nat, t: nat, timed: bool)
    requires n < |acts| && Enabled(s, acts[n]) && Waiting(s, t) && Called(s, acts, c, n, t, timed)
    requires Waiting(Do(s, acts[n]), t)
    ensures Called(Do(s, acts[n]), acts, c, n + 1, t, timed)
  {
    if acts[n] == Expire(t) {
      assert c < n < n + 1 && acts[n] == Expire(t);
    }
  }

  lemma {:induction false} CallOf(ss: seq<State>, acts: seq<Action>, n: nat, t: nat) returns (c: nat, timed: bool)
    requires Run(ss, acts) && n < |ss| && Waiting(ss[n], t)
    ensures Called(ss[n], acts, c, n, t, timed)
  {
    assert n > 0;
    assert Leads(ss[n - 1], acts[n - 1], ss[n - 1 + 1]);
    if acts[n - 1].CallWait? && acts[n - 1].t == t {
      c, timed := n - 1, acts[n - 1].timed;
    } else {
      assert Waiting(ss[n - 1], t);
      hide Called;
      c, timed := CallOf(ss, acts, n - 1, t);
      CalledStep(ss[n - 1], acts, c, n - 1, t, timed);
    }
  }

  // A wait decides for false if and only if its own deadline ended its sleep; so a wait without a
  // deadline never does.
  lemma FalseIffExpired(ss: seq<State>, acts: seq<Action>, n: nat, t: nat) returns (c: nat)
    requires Run(ss, acts) && n < |ss| && t < |ss[n].pcs| && ss[n].pcs[t].Leaving?
    ensures c < n && acts[c].CallWait? && acts[c].t == t
    ensures forall i :: c < i < n && acts[i].t == t ==> !acts[i].CallWait?
    ensures ss[n].pcs[t] == Leaving(false) <==> exists i :: c < i < n && acts[i] == Expire(t)
    ensures ss[n].pcs[t] == Leaving(false) ==> acts[c].timed
  {
    var timed;
    c, timed := CallOf(ss, acts, n, t);
  }

  // A timed wait that nobody signals comes back with false.
  lemma TimesOut() returns (ss: seq<State>, acts: seq<Action>)
    ensures Run(ss, acts) && |acts| == 7 && acts[0] == CallWait(0, true) && acts[4] == Expire(0)
    ensures ss[6].pcs == [Leaving(false)] && ss[7].pcs == [Idle] && ss[7].returned == 0 && !ss[7].flag
  {
    hide Leads;
    var s := State(false, None, [Idle], 0, 0, 0, 0);
    var asleep, expired := s.(pcs := [Asleep(true)]), s.(pcs := [Woken(true, true)]);
    var called, locked, tested := FallsAsleep(s, asleep);
    var leaving := GivesUp(asleep, expired, s);
    acts := [CallWait(0, true), Lock(0), Test(0), Park(0), Expire(0), Reacquire(0), Unlock(0)];
    ss := [s, called, locked, tested, asleep, expired, leaving, s];
  }

  lemma FallsAsleep(s: State, r: State) returns (s1: State, s2: State, s3: State)
    requires !s.flag && s.holder == None && s.pcs == [Idle] && r == s.(pcs := [Asleep(true)])
    ensures Leads(s, CallWait(0, true), s1) && Leads(s1, Lock(0), s2) && Leads(s2, Test(0), s3) && Leads(s3, Park(0), r)
  {
    s1 := s.(pcs := [Locking(true)]);
    s2 := s.(pcs := [Testing(true)], holder := Some(0));
    s3 := s2.(pcs := [Parking(true)]);
  }

  lemma GivesUp(s: State, s1: State, r: State) returns (s2: State)
    requires s.holder == None && s.pcs == [Asleep(true)]
    requires s1 == s.(pcs := [Woken(true, true)]) && r == s.(pcs := [Idle])
    ensures Leads(s, Expire(0), s1) && Leads(s1, Reacquire(0), s2) && Leads(s2, Unlock(0), r)
    ensures s2 == s.(pcs := [Leaving(false)], holder := Some(0))
  {
    s2 := s.(pcs := [Leaving(false)], holder := Some(0));
  }

  // ---- Lost wake-ups ----

  // A thread on its way to test the flag again, or one about to notify.
  predicate Stirs(s: State, u: nat) {
    && u < |s.pcs|
    && var pc := s.pcs[u];
       pc.Notifying? || pc.Locking? || pc.Testing? || pc.Taking? || (pc.Woken? && !pc.expired)
  }

  predicate Parks(s: State, t: nat) {
    t < |s.pcs| && s.pcs[t].Parking?
  }

  predicate Notifies(s: State, u: nat) {
    u < |s.pcs| && s.pcs[u].Notifying?
  }

  // Somebody sleeps on a set flag and nobody is left to take it or to wake a sleeper.
  ghost predicate Stuck(s: State) {
    s.flag && (exists t :: Sleeps(s, t)) && !exists u :: Stirs(s, u)
  }

  // A notification of a set flag that falls between a waiter's test and its sleep.
  ghost predicate Early(s: State, a: Action) {
    a.Notify? && s.flag && exists t :: Parks(s, t)
  }

  // What holds as long as no notification comes early.
  ghost predicate Awake(s: State) {
    s.flag ==>
      && ((exists t :: Sleeps(s, t)) ==> exists u :: Stirs(s, u))
      && ((exists t :: Parks(s, t)) ==> exists u :: Notifies(s, u))
  }

  lemma AwakeStep(s: State, a: Action)
    requires Safe(s) && Awake(s) && Enabled(s, a) && !Early(s, a)
    ensures Awake(Do(s, a))
  {
    var r, t := Do(s, a), a.t;
    if r.flag {
      match a
      case CallSignal(_, _) =>
        assert Notifies(r, t) && Stirs(r, t);
      case Notify(_, wake) =>
        if u :| Sleeps(r, u) {
          assert Sleeps(s, u);
          var w :| w in wake;
          assert Sleeps(s, w) && Stirs(r, w);
        }
        assert forall u :: Parks(r, u) ==> Parks(s, u);
      case _ =>
        QuietStep(s, a);
    }
  }

  // A step that neither sets the flag nor notifies, while the flag stays set.
  lemma QuietStep(s: State, a: Action)
    requires Safe(s) && Awake(s) && Enabled(s, a) && !a.CallSignal? && !a.Notify? && Do(s, a).flag
    ensures Awake(Do(s, a))
  {
    var r, t := Do(s, a), a.t;
    assert s.flag;
    assert forall u :: 0 <= u < |s.pcs| && u != t ==> r.pcs[u] == s.pcs[u];
    assert forall u :: Notifies(s, u) ==> Notifies(r, u);
    assert forall u :: Parks(r, u) ==> Parks(s, u);
    if u :| Sleeps(r, u) {
      if a.Park? {
        assert Parks(s, t);
        var v :| Notifies(s, v);
        assert Stirs(r, v);
      } else {
        assert Sleeps(s, u);
        var w :| Stirs(s, w);
        StirsOn(s, a, w);
      }
    }
  }

  lemma StirsOn(s: State, a: Action, w: nat)
    requires Enabled(s, a) && Stirs(s, w) && !a.Notify? && s.flag && Do(s, a).flag
    ensures Stirs(Do(s, a), w)
  {
  }

  // The step that loses a wake-up: a waiter falls asleep on a flag that was set behind its test,
  // and nobody is left who would look at the flag or notify.
  lemma StuckIff(s: State, a: Action)
    requires Safe(s) && Enabled(s, a) && !Stuck(s)
    ensures Stuck(Do(s, a)) <==> a.Park? && s.flag && !exists u :: Stirs(s, u)
  {
    var r, t := Do(s, a), a.t;
    if a.Park? {
      assert Sleeps(r, t);
      assert forall u :: Stirs(r, u) <==> Stirs(s, u);
    } else if Stuck(r) {
      var u :| Sleeps(r, u);
      assert Sleeps(s, u);
      StirsLater(s, a);
    }
  }

  // Any other step that leaves a sleeper on a set flag leaves somebody stirring.
  lemma StirsLater(s: State, a: Action)
    requires Enabled(s, a) && !a.Park? && Do(s, a).flag && !Stuck(s) && exists u :: Sleeps(s, u) && Sleeps(Do(s, a), u)
    ensures exists u :: Stirs(Do(s, a), u)
  {
    var r, t := Do(s, a), a.t;
    if a.CallSignal? {
      assert Stirs(r, t);
    } else if a.Notify? {
      var u :| Sleeps(s, u);
      assert a.wake != {};
      var w :| w in a.wake;
      assert Sleeps(s, w) && Stirs(r, w);
    } else {
      var w :| Stirs(s, w);
      StirsOn(s, a, w);
    }
  }

  // Whoever is stuck got there by such a step.
  lemma {:induction false} StuckThrough(ss: seq<State>, acts: seq<Action>, n: nat) returns (i: nat)
    requires Run(ss, acts) && n < |ss| && Stuck(ss[n])
    ensures i < n && acts[i].Park? && ss[i].flag && !exists u :: Stirs(ss[i], u)
    ensures Stuck(ss[i + 1]) && !Stuck(ss[i])
  {
    if n > 0 && Stuck(ss[n - 1]) {
      i := StuckThrough(ss, acts, n - 1);
    } else {
      assert n > 0;
      i := n - 1;
      SafeRun(ss, acts, i);
      assert Leads(ss[i], acts[i], ss[i + 1]);
      StuckIff(ss[i], acts[i]);
    }
  }

  // Without early notifications no wake-up is ever lost.
  lemma {:induction false} NoLostWakeup(ss: seq<State>, acts: seq<Action>, n: nat)
    requires Run(ss, acts) && n < |ss| && forall i :: 0 <= i < n ==> !Early(ss[i], acts[i])
    ensures Awake(ss[n]) && !Stuck(ss[n])
  {
    if n > 0 {
      NoLostWakeup(ss, acts, n - 1);
      SafeRun(ss, acts, n - 1);
      assert Leads(ss[n - 1], acts[n - 1], ss[n - 1 + 1]);
      AwakeStep(ss[n - 1], acts[n - 1]);
    }
  }

  // With one, a wake-up can be lost: thread 1 signals after thread 0 found the flag clear and
  // before it sleeps. The flag is set, thread 0 sleeps, and no call is under way.
  lemma LostWakeup() returns (ss: seq<State>, acts: seq<Action>)
    ensures Run(ss, acts) && |acts| == 6 && |ss[0].pcs| == 2 && Early(ss[4], acts[4])
    ensures Stuck(ss[6]) && ss[6].pcs == [Asleep(false), Idle]
  {
    hide Leads;
    var clear := State(false, None, [Idle, Idle], 0, 0, 0, 0);
    var tested := State(false, Some(0), [Parking(false), Idle], 0, 0, 0, 0);
    var pending := State(true, Some(0), [Parking(false), Notifying(false)], 1, 0, 0, 0);
    var notified := State(true, Some(0), [Parking(false), Idle], 1, 0, 0, 0);
    var asleep := State(true, None, [Asleep(false), Idle], 1, 0, 0, 0);
    var calling, testing := FindsClear(clear, tested);
    SignalUnheard(tested, pending, notified, asleep);
    acts := [CallWait(0, false), Lock(0), Test(0), CallSignal(1, false), Notify(1, {}), Park(0)];
    ss := [clear, calling, testing, tested, pending, notified, asleep];
    assert Parks(pending, 0) && Sleeps(asleep, 0);
  }

  lemma FindsClear(s: State, r: State) returns (s1: State, s2: State)
    requires !s.flag && s.holder == None && s.pcs == [Idle, Idle]
    requires r == s.(pcs := [Parking(false), Idle], holder := Some(0))
    ensures Leads(s, CallWait(0, false), s1) && Leads(s1, Lock(0), s2) && Leads(s2, Test(0), r)
  {
    s1 := s.(pcs := [Locking(false), Idle]);
    s2 := s.(pcs := [Testing(false), Idle], holder := Some(0));
  }

  lemma SignalUnheard(s: State, s1: State, s2: State, r: State)
    requires !s.flag && s.pcs == [Parking(false), Idle]
    requires s1 == s.(pcs := [Parking(false), Notifying(false)], flag := true, signals := s.signals + 1)
    requires s2 == s1.(pcs := [Parking(false), Idle]) && r == s2.(pcs := [Asleep(false), Idle], holder := None)
    ensures Leads(s, CallSignal(1, false), s1) && Leads(s1, Notify(1, {}), s2) && Leads(s2, Park(0), r)
  {
    Unheard(s1, s2);
  }

  // A notification that finds nobody asleep.
  lemma Unheard(s: State, r: State)
    requires |s.pcs| == 2 && s.pcs[0].Parking? && s.pcs[1] == Notifying(false) && r == s.(pcs := [s.pcs[0], Idle])
    ensures Leads(s, Notify(1, {}), r)
  {
    assert Do(s, Notify(1, {})).pcs == r.pcs;
  }

  // ---- The deadline of a timed wait ----

  const BILLION: int := 1_000_000_000

  // The operators / and % of C truncate toward zero.
  function Quot(a: int): int {
    if a < 0 then -(-a / 1000) else a / 1000
  }

  function Rem(a: int): int {
    a - Quot(a) * 1000
  }

  lemma QuotTruncates(a: int)
    ensures Quot(a) * 1000 + Rem(a) == a && -1000 < Rem(a) < 1000
    ensures (a >= 0 ==> Rem(a) >= 0) && (a <= 0 ==> Rem(a) <= 0)
  {
  }

  datatype Time = Time(sec: int, nsec: int)

  // now is the time of day in seconds and microseconds.
  function Deadline(sec: int, usec: int, ms: int): Time {
    var ts := Time(sec + Quot(ms), usec * 1000 + Rem(ms) * 1000000);
    if ts.nsec > BILLION then Time(ts.sec + 1, ts.nsec - BILLION) else ts
  }

  // The deadline is always ms milliseconds from now, but a time the system accepts (its
  // nanoseconds below one second) exactly when the sum before the carry is not negative and
  // not a whole second: the carry test is strict. Otherwise the wait fails at once.
  lemma DeadlineValidIff(sec: int, usec: int, ms: int)
    requires 0 <= usec < 1_000_000
    ensures var d, sum := Deadline(sec, usec, ms), usec * 1000 + Rem(ms) * 1_000_000;
            && d.sec * BILLION + d.nsec == sec * BILLION + usec * 1000 + ms * 1_000_000
            && (0 <= d.nsec < BILLION <==> sum >= 0 && sum != BILLION)
  {
  }

  // Half a second past a full second, waiting half a second: the nanoseconds are one whole second.
  lemma DeadlineAtCarry()
    ensures Deadline(0, 500_000, 500) == Time(0, BILLION)
  {
  }
}
