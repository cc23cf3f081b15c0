// Thread_Base: threads register themselves in a list guarded by a mutex, and any number of
// callers wait until the list is empty. The condition wait may come back at any time, signalled
// or not.
module ThreadBase {

  // A thread from its creation to its end; it is listed between the push and the removal.
  datatype Pc =
    | Unborn
    | Born
    | Pushing
    | Pushed
    | Running
    | Exiting
    | Removing
    | Removed
    | Gone

  // A caller of wait(): sleep(1), then the count, then the condition, then back; it may call again.
  datatype Waiter = Outside | Napping | Checking | Blocked | Back

  datatype Owner = Free | Starter | Worker(w: nat)

  datatype State = State(list: seq<nat>, owner: Owner, pcs: seq<Pc>, waiters: seq<Waiter>)

  datatype Action =
    | BeginStart
    | Create(w: nat)
    | EndStart
    | Lock(w: nat)
    | PushBack(w: nat)
    | Unlock(w: nat)
    | Return(w: nat)
    | Remove(w: nat)
    | CallWait(c: nat)
    | WakeUp(c: nat)
    | Check(c: nat)
    | WaitReturns(c: nat)

  predicate Listed(pc: Pc) {
    pc == Pushed || pc == Running || pc == Exiting || pc == Removing
  }

  predicate Inside(pc: Pc) {
    pc == Pushing || pc == Pushed || pc == Removing || pc == Removed
  }

  predicate Initial(s: State) {
    && s.list == [] && s.owner == Free
    && (forall w :: 0 <= w < |s.pcs| ==> s.pcs[w] == Unborn)
    && (forall c :: 0 <= c < |s.waiters| ==> s.waiters[c] == Outside)
  }

  predicate At(s: State, w: nat, pc: Pc) {
    w < |s.pcs| && s.pcs[w] == pc
  }

  predicate Waits(s: State, c: nat, stage: Waiter) {
    c < |s.waiters| && s.waiters[c] == stage
  }

  predicate Enabled(s: State, a: Action) {
    match a
    case BeginStart => s.owner == Free
    case Create(w) => s.owner == Starter && At(s, w, Unborn)
    case EndStart => s.owner == Starter
    case Lock(w) => s.owner == Free && (At(s, w, Born) || At(s, w, Exiting))
    case PushBack(w) => At(s, w, Pushing)
    case Unlock(w) => At(s, w, Pushed) || At(s, w, Removed)
    case Return(w) => At(s, w, Running)
    case Remove(w) => At(s, w, Removing)
    case CallWait(c) => Waits(s, c, Outside) || Waits(s, c, Back)
    case WakeUp(c) => Waits(s, c, Napping)
    case Check(c) => Waits(s, c, Checking)
    case WaitReturns(c) => Waits(s, c, Blocked)
  }

  // std::list::remove: every element equal to w.
  function Erase(list: seq<nat>, w: nat): seq<nat> {
    if |list| == 0 then [] else (if list[0] == w then [] else [list[0]]) + Erase(list[1..], w)
  }

  function Goes(s: State, w: nat, pc: Pc): State
    requires w < |s.pcs|
  {
    s.(pcs := s.pcs[w := pc])
  }

  function Do(s: State, a: Action): State
    requires Enabled(s, a)
  {
    match a
    case BeginStart => s.(owner := Starter)
    case Create(w) => Goes(s, w, Born)
    case EndStart => s.(owner := Free)
    case Lock(w) => Goes(s, w, if s.pcs[w] == Born then Pushing else Removing).(owner := Worker(w))
    case PushBack(w) => Goes(s, w, Pushed).(list := s.list + [w])
    case Unlock(w) => Goes(s, w, if s.pcs[w] == Pushed then Running else Gone).(owner := Free)
    case Return(w) => Goes(s, w, Exiting)
    case Remove(w) => Goes(s, w, Removed).(list := Erase(s.list, w))
    case CallWait(c) => s.(waiters := s.waiters[c := Napping])
    case WakeUp(c) => s.(waiters := s.waiters[c := Checking])
    case Check(c) => s.(waiters := s.waiters[c := if |s.list| > 0 then Blocked else Back])
    case WaitReturns(c) => s.(waiters := s.waiters[c := Checking])
  }

  ghost predicate Path(ss: seq<State>, acts: seq<Action>) {
    && |ss| == |acts| + 1
    && forall i :: 0 <= i < |acts| ==> Leads(ss[i], acts[i], ss[i + 1])
  }

  ghost predicate Run(ss: seq<State>, acts: seq<Action>) {
    Path(ss, acts) && Initial(ss[0])
  }

  predicate Leads(s: State, a: Action, r: State) {
    Enabled(s, a) && r == Do(s, a)
  }

  // ---- The life of a thread ----

  function Stage(pc: Pc): nat {
    match pc
    case Unborn => 0
    case Born => 1
    case Pushing => 2
    case Pushed => 3
    case Running => 4
    case Exiting => 5
    case Removing => 6
    case Removed => 7
    case Gone => 8
  }

  predicate OfThread(a: Action, w: nat) {
    a == Create(w) || a == Lock(w) || a == PushBack(w) || a == Unlock(w) || a == Return(w) || a == Remove(w)
  }

  // A thread goes through its stages one by one, each in a step of its own; registering adds it
  // behind the others, and only its own removal takes it out.
  lemma OneStage(s: State, a: Action, w: nat)
    requires Enabled(s, a) && w < |s.pcs|
    ensures var r := Do(s, a);
            && |r.pcs| == |s.pcs| && Stage(r.pcs[w]) == Stage(s.pcs[w]) + (if OfThread(a, w) then 1 else 0)
            && (OfThread(a, w) ==>
                  r.waiters == s.waiters
                  && r.list == match s.pcs[w]
                               case Pushing => s.list + [w]
                               case Removing => Erase(s.list, w)
                               case _ => s.list)
  {
  }

  // Only the mutex can hold a thread up: before it registers, and before it takes itself out. What
  // the starter and the waiting callers do next never has to wait, but for the starter's lock.
  lemma CanMoveIff(s: State, w: nat)
    requires w < |s.pcs| && s.pcs[w] != Unborn
    ensures (exists a :: OfThread(a, w) && Enabled(s, a))
       <==> s.pcs[w] != Gone && ((s.pcs[w] == Born || s.pcs[w] == Exiting) ==> s.owner == Free)
    ensures Enabled(s, BeginStart) <==> s.owner == Free
    ensures s.owner == Starter ==> Enabled(s, EndStart)
  {
    assert OfThread(Lock(w), w) && OfThread(PushBack(w), w) && OfThread(Unlock(w), w) && OfThread(Return(w), w)
        && OfThread(Remove(w), w);
  }

  // A caller of wait() always has a next step, one at each place.
  lemma CallerMoves(s: State, c: nat)
    requires c < |s.waiters|
    ensures Enabled(s, CallWait(c)) || Enabled(s, WakeUp(c)) || Enabled(s, Check(c)) || Enabled(s, WaitReturns(c))
    ensures s.owner == Starter ==> forall w :: At(s, w, Unborn) ==> Enabled(s, Create(w))
  {
  }

  // How often w stands in the list.
  function Times(list: seq<nat>, w: nat): nat {
    if |list| == 0 then 0 else (if list[0] == w then 1 else 0) + Times(list[1..], w)
  }

  // The list holds, each once, exactly the threads between their push and their removal.
  ghost predicate Registered(s: State) {
    forall w: nat :: Times(s.list, w) == if w < |s.pcs| && Listed(s.pcs[w]) then 1 else 0
  }

  ghost predicate Exclusive(s: State) {
    forall w: nat :: w < |s.pcs| && Inside(s.pcs[w]) <==> s.owner == Worker(w)
  }

  lemma {:induction false} TimesConcat(a: seq<nat>, b: seq<nat>, w: nat)
    ensures Times(a + b, w) == Times(a, w) + Times(b, w)
  {
    if |a| == 0 {
      assert a + b == b;
    } else {
      assert (a + b)[0] == a[0] && (a + b)[1..] == a[1..] + b;
      TimesConcat(a[1..], b, w);
    }
  }

  lemma {:induction false} TimesErased(list: seq<nat>, v: nat, w: nat)
    ensures Times(Erase(list, v), w) == if v == w then 0 else Times(list, w)
  {
    if |list| > 0 {
      TimesErased(list[1..], v, w);
      TimesConcat(if list[0] == v then [] else [list[0]], Erase(list[1..], v), w);
    }
  }

  lemma RegisteredStep(s: State, a: Action)
    requires Registered(s) && Exclusive(s) && Enabled(s, a)
    ensures Registered(Do(s, a)) && Exclusive(Do(s, a))
  {
    var r := Do(s, a);
    forall w: nat
      ensures Times(r.list, w) == if w < |r.pcs| && Listed(r.pcs[w]) then 1 else 0
    {
      assert Times(s.list, w) == if w < |s.pcs| && Listed(s.pcs[w]) then 1 else 0;
      if a.PushBack? {
        TimesConcat(s.list, [a.w], w);
      } else if a.Remove? {
        TimesErased(s.list, a.w, w);
      }
    }
  }

  lemma {:induction false} RegisteredRun(ss: seq<State>, acts: seq<Action>, n: nat)
    requires Run(ss, acts) && n < |ss|
    ensures Registered(ss[n]) && Exclusive(ss[n])
  {
    if n > 0 {
      RegisteredRun(ss, acts, n - 1);
      assert Leads(ss[n - 1], acts[n - 1], ss[n - 1 + 1]);
      RegisteredStep(ss[n - 1], acts[n - 1]);
    }
  }

  lemma NoneListed(s: State)
    requires Registered(s)
    ensures |s.list| == 0 <==> forall w :: 0 <= w < |s.pcs| ==> !Listed(s.pcs[w])
  {
    if |s.list| > 0 {
      assert Times(s.list, s.list[0]) > 0;
    } else {
      assert forall w: nat :: Times(s.list, w) == 0;
    }
  }

  // A look at the count ends the wait exactly when no thread stands between its registration
  // and its removal.
  lemma WaitEndsIff(ss: seq<State>, acts: seq<Action>, n: nat, c: nat)
    requires Run(ss, acts) && n < |acts| && acts[n] == Check(c)
    ensures Waits(ss[n + 1], c, Back) <==> forall w :: 0 <= w < |ss[n].pcs| ==> !Listed(ss[n].pcs[w])
  {
    assert Leads(ss[n], acts[n], ss[n + 1]);
    RegisteredRun(ss, acts, n);
    NoneListed(ss[n]);
  }

  // A thread on its way into the list.
  predicate Entering(pc: Pc) {
    pc == Born || pc == Pushing
  }

  // A thread that never was or has left the list for good.
  predicate Over(pc: Pc) {
    pc == Unborn || pc == Removed || pc == Gone
  }

  ghost predicate NoneEntering(s: State) {
    forall w :: 0 <= w < |s.pcs| ==> !Entering(s.pcs[w])
  }

  ghost predicate AllOver(s: State) {
    forall w :: 0 <= w < |s.pcs| ==> Over(s.pcs[w])
  }

  // The look that ends a wait means that all threads are over exactly when none is still on its
  // way into the list.
  lemma EndMeansOverIff(ss: seq<State>, acts: seq<Action>, n: nat, c: nat)
    requires Run(ss, acts) && n < |acts| && acts[n] == Check(c) && Waits(ss[n + 1], c, Back)
    ensures AllOver(ss[n]) <==> NoneEntering(ss[n])
  {
    WaitEndsIff(ss, acts, n, c);
  }

  // Who was not back and is back later had a look at an empty list in between.
  lemma {:induction false} LastLook(ss: seq<State>, acts: seq<Action>, from: nat, n: nat, c: nat)
    returns (m: nat)
    requires Path(ss, acts) && from <= n < |ss| && !Waits(ss[from], c, Back) && Waits(ss[n], c, Back)
    ensures from <= m < n && acts[m] == Check(c) && |ss[m].list| == 0
    ensures forall i :: m < i <= n ==> Waits(ss[i], c, Back)
  {
    assert Leads(ss[n - 1], acts[n - 1], ss[n - 1 + 1]);
    if Waits(ss[n - 1], c, Back) {
      m := LastLook(ss, acts, from, n - 1, c);
    } else {
      m := n - 1;
    }
  }

  // A wait comes back only through such a look, however often the condition wakes it.
  lemma BackMeansChecked(ss: seq<State>, acts: seq<Action>, n: nat, c: nat) returns (m: nat)
    requires Run(ss, acts) && n < |ss| && Waits(ss[n], c, Back)
    ensures m < n && acts[m] == Check(c) && |ss[m].list| == 0
    ensures forall i :: m < i <= n ==> Waits(ss[i], c, Back)
    ensures forall w :: 0 <= w < |ss[m].pcs| ==> !Listed(ss[m].pcs[w])
  {
    m := LastLook(ss, acts, 0, n, c);
    RegisteredRun(ss, acts, m);
    NoneListed(ss[m]);
  }

  ghost predicate NoneCreated(acts: seq<Action>, from: nat, to: nat)
    requires from <= to <= |acts|
  {
    forall i :: from <= i < to ==> !acts[i].Create?
  }

  // Unless a thread is created, none comes to enter, and what is over stays over.
  lemma {:induction false} NoneComes(ss: seq<State>, acts: seq<Action>, from: nat, to: nat)
    requires Path(ss, acts) && from <= to <= |acts| && NoneCreated(acts, from, to)
    ensures NoneEntering(ss[from]) ==> NoneEntering(ss[to])
    ensures AllOver(ss[from]) ==> AllOver(ss[to])
  {
    if from < to {
      NoneComes(ss, acts, from, to - 1);
      assert Leads(ss[to - 1], acts[to - 1], ss[to - 1 + 1]);
      NoneComesAt(ss[to - 1], acts[to - 1]);
    }
  }

  lemma NoneComesAt(s: State, a: Action)
    requires Enabled(s, a) && !a.Create?
    ensures NoneEntering(s) ==> NoneEntering(Do(s, a))
    ensures AllOver(s) ==> AllOver(Do(s, a))
  {
  }

  // ---- When a wait can be back too early ----

  // The path from s begins with c's call of wait() and ends with c back, some thread not over.
  ghost predicate Premature(s: State, ss: seq<State>, acts: seq<Action>, c: nat) {
    && Path(ss, acts) && ss[0] == s && |acts| > 0 && acts[0] == CallWait(c)
    && Waits(ss[|acts|], c, Back) && !AllOver(ss[|acts|])
  }

  // A thread that the list may never get to tell about: it is created but has not locked the
  // mutex yet, or it is about to be the first in an empty list.
  ghost predicate Gap(s: State) {
    exists w :: At(s, w, Born) || (At(s, w, Pushing) && |s.list| == 0)
  }

  ghost predicate NoneUnborn(s: State) {
    forall w :: 0 <= w < |s.pcs| ==> s.pcs[w] != Unborn
  }

  // Without a gap and without a new thread no step opens one: while a thread is pushing, the lock
  // keeps the list from becoming empty.
  lemma NoGapStep(s: State, a: Action)
    requires Registered(s) && Exclusive(s) && Enabled(s, a) && !a.Create? && !Gap(s)
    ensures !Gap(Do(s, a))
  {
    var r := Do(s, a);
    forall w: nat ensures !(At(r, w, Born) || (At(r, w, Pushing) && |r.list| == 0)) {
      assert !(At(s, w, Born) || (At(s, w, Pushing) && |s.list| == 0));
    }
  }

  // On a path without creations, from a state without a gap, a list found empty means that all
  // threads are over.
  lemma {:induction false} NoGapPath(ss: seq<State>, acts: seq<Action>, n: nat)
    requires Path(ss, acts) && n < |ss| && NoneCreated(acts, 0, n)
    requires Registered(ss[0]) && Exclusive(ss[0]) && !Gap(ss[0])
    ensures Registered(ss[n]) && Exclusive(ss[n]) && !Gap(ss[n])
    ensures |ss[n].list| == 0 ==> AllOver(ss[n])
  {
    if n > 0 {
      NoGapPath(ss, acts, n - 1);
      assert Leads(ss[n - 1], acts[n - 1], ss[n - 1 + 1]);
      RegisteredStep(ss[n - 1], acts[n - 1]);
      NoGapStep(ss[n - 1], acts[n - 1]);
    }
    NoneListed(ss[n]);
    forall w | 0 <= w < |ss[n].pcs| && |ss[n].list| == 0 ensures Over(ss[n].pcs[w]) {
      assert !At(ss[n], w, Born) && !At(ss[n], w, Pushing);
    }
  }

  // So no wait called there is premature.
  lemma NotPremature(s: State, ss: seq<State>, acts: seq<Action>, c: nat)
    requires Registered(s) && Exclusive(s) && !Gap(s) && NoneCreated(acts, 0, |acts|)
    ensures !Premature(s, ss, acts, c)
  {
    if Premature(s, ss, acts, c) {
      assert Leads(ss[0], acts[0], ss[0 + 1]);
      var m := LastLook(ss, acts, 1, |acts|, c);
      NoGapPath(ss, acts, m);
      NoneComes(ss, acts, m, |acts|);
    }
  }

  // With no thread left to create, none is created.
  lemma {:induction false} NoneToCreate(ss: seq<State>, acts: seq<Action>, n: nat)
    requires Path(ss, acts) && n <= |acts| && NoneUnborn(ss[0])
    ensures NoneUnborn(ss[n]) && NoneCreated(acts, 0, n)
  {
    if n > 0 {
      NoneToCreate(ss, acts, n - 1);
      assert Leads(ss[n - 1], acts[n - 1], ss[n - 1 + 1]);
    }
  }

  // The steps a thread has to go from its lock to its end.
  function Rest(pc: Pc): nat {
    match pc
    case Pushing => 6
    case Pushed => 5
    case Running => 4
    case Exiting => 3
    case Removing => 2
    case Removed => 1
    case _ => 0
  }

  function Work(pcs: seq<Pc>): nat {
    if |pcs| == 0 then 0 else Rest(pcs[0]) + Work(pcs[1..])
  }

  lemma {:induction false} WorkUpdate(pcs: seq<Pc>, w: nat, pc: Pc)
    requires w < |pcs|
    ensures Work(pcs[w := pc]) == Work(pcs) - Rest(pcs[w]) + Rest(pc)
  {
    if w > 0 {
      assert pcs[w := pc][1..] == pcs[1..][w - 1 := pc];
      WorkUpdate(pcs[1..], w - 1, pc);
    } else {
      assert pcs[w := pc][1..] == pcs[1..];
    }
  }

  // A step on the way to the free lock and the empty list that waits for no thread not yet
  // listed: the owner of the lock goes on, or, if nobody has it, the first thread of the list.
  function Onward(s: State): (a: Action)
    requires s.owner != Free || |s.list| > 0
  {
    match s.owner
    case Starter => EndStart
    case Worker(w) =>
      if At(s, w, Pushing) then PushBack(w) else if At(s, w, Removing) then Remove(w) else Unlock(w)
    case Free => if At(s, s.list[0], Running) then Return(s.list[0]) else Lock(s.list[0])
  }

  function Left(s: State): nat {
    Work(s.pcs) + if s.owner == Starter then 1 else 0
  }

  lemma OnwardWorks(s: State)
    requires Registered(s) && Exclusive(s) && (s.owner != Free || |s.list| > 0)
    ensures Enabled(s, Onward(s)) && !Onward(s).Create?
    ensures Left(Do(s, Onward(s))) < Left(s) && Keeps(s, Do(s, Onward(s)))
  {
    if s.owner == Free {
      FirstWorks(s);
    } else if s.owner.Worker? {
      OwnerWorks(s, s.owner.w);
    }
  }

  lemma FirstWorks(s: State)
    requires Registered(s) && Exclusive(s) && s.owner == Free && |s.list| > 0
    ensures Enabled(s, Onward(s)) && !Onward(s).Create?
    ensures Left(Do(s, Onward(s))) < Left(s) && Keeps(s, Do(s, Onward(s)))
  {
    var v := s.list[0];
    assert Times(s.list, v) > 0;
    assert Listed(s.pcs[v]) && !Inside(s.pcs[v]);
    hide Times, Registered, Exclusive;
    WorkUpdate(s.pcs, v, if s.pcs[v] == Running then Exiting else Removing);
  }

  lemma OwnerWorks(s: State, w: nat)
    requires Exclusive(s) && s.owner == Worker(w)
    ensures Enabled(s, Onward(s)) && !Onward(s).Create?
    ensures Left(Do(s, Onward(s))) < Left(s) && Keeps(s, Do(s, Onward(s)))
  {
    assert w < |s.pcs| && Inside(s.pcs[w]);
    hide Exclusive, Erase;
    WorkUpdate(s.pcs, w, Do(s, Onward(s)).pcs[w]);
  }

  // Nobody new is under way, and the waiting callers stay where they are.
  ghost predicate Keeps(s: State, r: State) {
    && r.waiters == s.waiters && |r.pcs| == |s.pcs|
    && forall w :: 0 <= w < |s.pcs| && (s.pcs[w] == Unborn || s.pcs[w] == Born) ==> r.pcs[w] == s.pcs[w]
  }

  // From every state the listed threads can come to their end before anyone else moves.
  lemma {:induction false} Drain(s: State) returns (ss: seq<State>, acts: seq<Action>)
    requires Registered(s) && Exclusive(s)
    ensures Path(ss, acts) && ss[0] == s && NoneCreated(acts, 0, |acts|)
    ensures var r := ss[|acts|]; r.owner == Free && |r.list| == 0 && Keeps(s, r)
    decreases Left(s)
  {
    if s.owner == Free && |s.list| == 0 {
      return [s], [];
    }
    var a := Onward(s);
    OnwardWorks(s);
    RegisteredStep(s, a);
    ss, acts := Drain(Do(s, a));
    Led(s, a, ss, acts);
    ss, acts := [s] + ss, [a] + acts;
  }

  // A path with a step before it.
  lemma Led(s: State, a: Action, ss: seq<State>, acts: seq<Action>)
    requires Path(ss, acts) && Leads(s, a, ss[0])
    ensures Path([s] + ss, [a] + acts)
  {
    forall i | 0 <= i < |acts| + 1 ensures Leads(([s] + ss)[i], ([a] + acts)[i], ([s] + ss)[i + 1]) {
      if i > 0 {
        assert Leads(ss[i - 1], acts[i - 1], ss[i - 1 + 1]);
      }
    }
  }

  // A path with a step behind it.
  lemma Extended(ss: seq<State>, acts: seq<Action>, a: Action, r: State)
    requires Path(ss, acts) && Leads(ss[|acts|], a, r)
    ensures Path(ss + [r], acts + [a])
  {
    forall i | 0 <= i < |acts| + 1 ensures Leads((ss + [r])[i], (acts + [a])[i], (ss + [r])[i + 1]) {
      if i < |acts| {
        assert Leads(ss[i], acts[i], ss[i + 1]);
      }
    }
  }

  predicate MayCall(s: State, c: nat) {
    Waits(s, c, Outside) || Waits(s, c, Back)
  }

  // A napping caller that wakes up to an empty list is back at once, whatever thread is not over.
  lemma LooksNow(s: State, c: nat, ss: seq<State>, acts: seq<Action>)
    returns (ts: seq<State>, bs: seq<Action>)
    requires MayCall(s, c) && Path(ss, acts) && ss[0] == Do(s, CallWait(c))
    requires var r := ss[|acts|]; Waits(r, c, Napping) && |r.list| == 0 && !AllOver(r)
    ensures Premature(s, ts, bs, c) && bs == [CallWait(c)] + acts + [WakeUp(c)] + [Check(c)]
  {
    var r1 := Do(ss[|acts|], WakeUp(c));
    var r2 := Do(r1, Check(c));
    Led(s, CallWait(c), ss, acts);
    ts, bs := [s] + ss, [CallWait(c)] + acts;
    Extended(ts, bs, WakeUp(c), r1);
    ts, bs := ts + [r1], bs + [WakeUp(c)];
    Extended(ts, bs, Check(c), r2);
    ts, bs := ts + [r2], bs + [Check(c)];
    assert r2.pcs == ss[|acts|].pcs;
  }

  lemma GapEndsEarly(s: State, c: nat) returns (ss: seq<State>, acts: seq<Action>)
    requires Registered(s) && Exclusive(s) && MayCall(s, c) && Gap(s)
    ensures Premature(s, ss, acts, c) && NoneCreated(acts, 0, |acts|)
  {
    var s1 := Do(s, CallWait(c));
    if w: nat :| At(s, w, Pushing) && |s.list| == 0 {
      assert !Over(s1.pcs[w]);
      ss, acts := LooksNow(s, c, [s1], []);
    } else {
      var w: nat :| At(s, w, Born);
      RegisteredStep(s, CallWait(c));
      ss, acts := Drain(s1);
      assert ss[|acts|].pcs[w] == Born;
      ss, acts := LooksNow(s, c, ss, acts);
    }
  }

  lemma UnbornEndsEarly(s: State, c: nat, w: nat) returns (ss: seq<State>, acts: seq<Action>)
    requires Registered(s) && Exclusive(s) && MayCall(s, c) && At(s, w, Unborn)
    ensures Premature(s, ss, acts, c)
  {
    RegisteredStep(s, CallWait(c));
    ss, acts := Drain(Do(s, CallWait(c)));
    var r1 := Do(ss[|acts|], BeginStart);
    var r2 := Do(r1, Create(w));
    Extended(ss, acts, BeginStart, r1);
    ss, acts := ss + [r1], acts + [BeginStart];
    Extended(ss, acts, Create(w), r2);
    assert r2.pcs[w] == Born;
    ss, acts := LooksNow(s, c, ss + [r2], acts + [Create(w)]);
  }

  // While no thread is created, a wait called now can be back before all threads are over if and
  // only if there is a gap now.
  lemma PrematureIff(s: State, c: nat)
    requires Registered(s) && Exclusive(s) && MayCall(s, c)
    ensures (exists ss, acts :: Premature(s, ss, acts, c) && NoneCreated(acts, 0, |acts|)) <==> Gap(s)
  {
    if Gap(s) {
      var ss, acts := GapEndsEarly(s, c);
    }
    if ss, acts :| Premature(s, ss, acts, c) && NoneCreated(acts, 0, |acts|) {
      if !Gap(s) {
        NotPremature(s, ss, acts, c);
      }
    }
  }

  // With threads still to create it always can.
  lemma PrematureAnyIff(s: State, c: nat)
    requires Registered(s) && Exclusive(s) && MayCall(s, c)
    ensures (exists ss, acts :: Premature(s, ss, acts, c)) <==> Gap(s) || !NoneUnborn(s)
  {
    if Gap(s) {
      var ss, acts := GapEndsEarly(s, c);
    } else if !NoneUnborn(s) {
      var w: nat :| w < |s.pcs| && s.pcs[w] == Unborn;
      var ss, acts := UnbornEndsEarly(s, c, w);
    } else if ss, acts :| Premature(s, ss, acts, c) {
      NoneToCreate(ss, acts, |acts|);
      NotPremature(s, ss, acts, c);
    }
  }

  lemma Segment(ss: seq<State>, acts: seq<Action>, from: nat, to: nat)
    requires Path(ss, acts) && from <= to <= |acts|
    ensures Path(ss[from..to + 1], acts[from..to])
  {
    var ts, bs := ss[from..to + 1], acts[from..to];
    forall i | 0 <= i < |bs| ensures Leads(ts[i], bs[i], ts[i + 1]) {
      assert Leads(ss[from + i], acts[from + i], ss[from + i + 1]);
    }
  }

  // What a caller can rely on: if there is no gap at the call of wait(), and no thread is created
  // until it is back, then by then all threads are over.
  lemma WaitOutlasts(ss: seq<State>, acts: seq<Action>, call: nat, n: nat, c: nat)
    requires Run(ss, acts) && call < n <= |acts| && acts[call] == CallWait(c) && Waits(ss[n], c, Back)
    requires !Gap(ss[call]) && NoneCreated(acts, call, n)
    ensures AllOver(ss[n])
  {
    RegisteredRun(ss, acts, call);
    var ts, bs := ss[call..n + 1], acts[call..n];
    Segment(ss, acts, call, n);
    assert Leads(ts[0], bs[0], ts[0 + 1]);
    PrematureIff(ss[call], c);
    assert NoneCreated(bs, 0, |bs|);
    assert !Premature(ss[call], ts, bs, c);
  }

  lemma EarlyRun() returns (ss: seq<State>, acts: seq<Action>)
    ensures Run(ss, acts) && |acts| == 6 && acts[3] == CallWait(0) && NoneCreated(acts, 3, 6)
    ensures ss[3].pcs == [Born] && ss[6].pcs == [Born] && Waits(ss[6], 0, Back)
  {
    acts := [BeginStart, Create(0), EndStart, CallWait(0), WakeUp(0), Check(0)];
    var s0 := State([], Free, [Unborn], [Outside]);
    var s1 := s0.(owner := Starter);
    var s2 := s1.(pcs := [Born]);
    var s3 := s2.(owner := Free);
    ss := [s0, s1, s2, s3, s3.(waiters := [Napping]), s3.(waiters := [Checking]), s3.(waiters := [Back])];
  }

  // A gap can be there when wait() is called: the one second of sleep is all that separates the
  // creation of a thread from the first look at the list.
  lemma BackTooEarly() returns (ss: seq<State>, acts: seq<Action>)
    ensures Run(ss, acts) && |acts| == 6 && acts[3] == CallWait(0) && NoneCreated(acts, 3, 6)
    ensures Waits(ss[6], 0, Back) && ss[6].pcs == [Born]
    ensures Gap(ss[3]) && Premature(ss[3], ss[3..], acts[3..], 0)
  {
    hide Enabled, Do;
    ss, acts := EarlyRun();
    Segment(ss, acts, 3, 6);
    assert ss[3..7] == ss[3..] && acts[3..6] == acts[3..];
    assert At(ss[3], 0, Born);
    assert !Over(ss[6].pcs[0]);
  }
}
