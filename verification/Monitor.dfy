/**
 One mutex, its guards and the condition variables used with it, for any number of threads, as a
 transition system over every interleaving, wake-up and return code.

 Guards are counted per thread rather than assumed unique, and unlocking without owning the mutex
 is recorded as misuse rather than excluded, so exclusion is a consequence of the code.
 */
module Monitor {
  import opened Errors

  /** What a thread is doing with the monitor. */
  datatype Pc =
    | Running
    | Locking               // inside pthread_mutex_lock
    | Asleep(cv: nat)       // inside pthread_cond_wait, mutex released
    | Waking(rc: int)       // inside pthread_cond_wait, about to take the mutex again
    | WaitDone(rc: int)     // pthread_cond_wait has returned; the old guard was forgotten

  datatype Thread = Thread(pc: Pc, guards: nat)

  /** The history of the lock, with the data seen at each change of hands. */
  datatype Event<D> = Acquired(t: nat, data: D) | Unlocked(t: nat, data: D)

  datatype State<D> = State(
    threads: seq<Thread>,
    owner: Option<nat>,
    data: D,
    log: seq<Event<D>>,
    misuse: bool)

  function Init<D>(n: nat, data: D): State<D> {
    State(seq(n, _ => Thread(Running, 0)), None, data, [], false)
  }

  datatype Step<D> =
    | CallLock | LockOk | LockFails(rc: int)
    | Write(data: D)
    | DropGuard
    | CallWait(cv: nat) | WaitRefused(rc: int)
    | Wake(rc: int)
    | Reacquire | WaitReturns
    | NotifyOne(cv: nat, woken: Option<nat>) | NotifyAll(cv: nat)

  function SetThread<D>(s: State<D>, t: nat, pc: Pc, guards: nat): State<D>
    requires t < |s.threads|
  {
    s.(threads := s.threads[t := Thread(pc, guards)])
  }

  function Acquire<D>(s: State<D>, t: nat): State<D> {
    s.(owner := Some(t), log := s.log + [Acquired(t, s.data)])
  }

  /** pthread_mutex_unlock, only right for the owner. */
  function Unlock<D>(s: State<D>, t: nat): State<D> {
    if s.owner == Some(t) then s.(owner := None, log := s.log + [Unlocked(t, s.data)])
    else s.(misuse := true)
  }

  /** The threads after waking everyone asleep on `cv`. */
  function WakeAll(threads: seq<Thread>, cv: nat): (r: seq<Thread>)
    ensures |r| == |threads|
    ensures forall i :: 0 <= i < |r| ==>
              r[i] == if threads[i].pc == Asleep(cv) then threads[i].(pc := Waking(0)) else threads[i]
  {
    if threads == [] then []
    else
      var last := threads[|threads| - 1];
      WakeAll(threads[..|threads| - 1], cv) + [if last.pc == Asleep(cv) then last.(pc := Waking(0)) else last]
  }

  /** Thread `t` takes a step; `None` when it cannot. */
  function Next<D>(s: State<D>, t: nat, step: Step<D>): Option<State<D>> {
    if t >= |s.threads| then None
    else
      var pc, g := s.threads[t].pc, s.threads[t].guards;
      match step
      case CallLock =>
        if pc != Running then None else Some(SetThread(s, t, Locking, g))
      case LockOk =>
        if pc != Locking || s.owner.Some? then None else Some(Acquire(SetThread(s, t, Running, g + 1), t))
      case LockFails(rc) =>
        if pc != Locking || rc == 0 then None else Some(SetThread(s, t, Running, g))
      case Write(d) =>
        if pc != Running || g == 0 then None else Some(s.(data := d))
      case DropGuard =>
        if pc != Running || g == 0 then None else Some(Unlock(SetThread(s, t, Running, g - 1), t))
      case CallWait(cv) =>
        // the guard is forgotten, the mutex released and the thread put to sleep in one go
        if pc != Running || g == 0 then None else Some(Unlock(SetThread(s, t, Asleep(cv), g - 1), t))
      case WaitRefused(rc) =>
        // the guard is forgotten, but the call fails before releasing anything
        if pc != Running || g == 0 || rc == 0 then None else Some(SetThread(s, t, WaitDone(rc), g - 1))
      case Wake(rc) =>
        // a spurious wake-up, or an error noticed while asleep
        if !pc.Asleep? then None else Some(SetThread(s, t, Waking(rc), g))
      case Reacquire =>
        if !pc.Waking? || s.owner.Some? then None else Some(Acquire(SetThread(s, t, WaitDone(pc.rc), g), t))
      case WaitReturns =>
        // a guard is rebuilt; on the error path it is dropped again at once
        if !pc.WaitDone? then None
        else if pc.rc == 0 then Some(SetThread(s, t, Running, g + 1))
        else Some(Unlock(SetThread(s, t, Running, g), t))
      case NotifyOne(cv, woken) =>
        if pc != Running then None
        else (match woken
          case None => if exists i :: 0 <= i < |s.threads| && s.threads[i].pc == Asleep(cv) then None else Some(s)
          case Some(w) =>
            if w >= |s.threads| || s.threads[w].pc != Asleep(cv) then None
            else Some(SetThread(s, w, Waking(0), s.threads[w].guards)))
      case NotifyAll(cv) =>
        if pc != Running then None else Some(s.(threads := WakeAll(s.threads, cv)))
  }

  /** A run: the states passed through, and who takes which step between them. */
  datatype Run<D> = Run(states: seq<State<D>>, steps: seq<(nat, Step<D>)>)

  /** The run starts with `n` threads and an unlocked mutex, and every step of it can be taken. */
  ghost predicate IsRun<D>(run: Run<D>, n: nat, data: D) {
    && |run.states| == |run.steps| + 1
    && run.states[0] == Init(n, data)
    && forall i :: 0 <= i < |run.steps| ==>
         Next(run.states[i], run.steps[i].0, run.steps[i].1) == Some(run.states[i + 1])
  }

  // ----- exclusion

  /** The thread is the owner exactly through one guard or through a wait about to return. */
  predicate Holds(th: Thread, owner: bool) {
    && th.guards <= 1
    && (owner <==> th.guards == 1 || th.pc.WaitDone?)
    && !(th.guards == 1 && th.pc.WaitDone?)
    && (th.pc.Asleep? || th.pc.Waking? ==> th.guards == 0)
  }

  predicate Exclusive<D>(s: State<D>) {
    && !s.misuse
    && (s.owner.Some? ==> s.owner.value < |s.threads|)
    && forall t :: 0 <= t < |s.threads| ==> Holds(s.threads[t], s.owner == Some(t))
  }

  lemma StepKeepsExclusion<D>(s: State<D>, t: nat, step: Step<D>)
    requires Exclusive(s) && Next(s, t, step).Some?
    ensures Exclusive(Next(s, t, step).value) && |Next(s, t, step).value.threads| == |s.threads|
  {
    assert Holds(s.threads[t], s.owner == Some(t));
  }

  lemma ExclusiveNext<D>(run: Run<D>, n: nat, data: D, k: nat)
    requires IsRun(run, n, data) && k < |run.steps|
    requires Exclusive(run.states[k]) && |run.states[k].threads| == n
    ensures Exclusive(run.states[k + 1]) && |run.states[k + 1].threads| == n
  {
    var (t, step) := run.steps[k];
    assert Next(run.states[k], t, step) == Some(run.states[k + 1]);
    StepKeepsExclusion(run.states[k], t, step);
  }

  lemma {:induction false} AlwaysExclusive<D>(run: Run<D>, n: nat, data: D, k: nat)
    requires IsRun(run, n, data) && k < |run.states|
    ensures Exclusive(run.states[k]) && |run.states[k].threads| == n
  {
    if k > 0 {
      AlwaysExclusive(run, n, data, k - 1);
      ExclusiveNext(run, n, data, k - 1);
    }
  }

  /**
   Mutual exclusion, in every reachable state of any number of threads: at most one guard is live,
   the thread that has it owns the mutex, the mutex is owned without a guard only while a wait is
   returning, and no unlock is ever issued by a thread that does not own it.
   */
  lemma MutualExclusion<D>(run: Run<D>, n: nat, data: D, k: nat, t: nat, u: nat)
    requires IsRun(run, n, data) && k < |run.states| && t < n && u < n
    ensures var s := run.states[k];
            && |s.threads| == n && !s.misuse
            && s.threads[t].guards <= 1
            && (s.threads[t].guards == 1 && s.threads[u].guards == 1 ==> t == u)
            && (s.threads[t].guards == 1 <==> s.owner == Some(t) && !s.threads[t].pc.WaitDone?)
            && (s.threads[t].pc.WaitDone? ==> s.owner == Some(t))
  {
    AlwaysExclusive(run, n, data, k);
    var s := run.states[k];
    assert Holds(s.threads[t], s.owner == Some(t)) && Holds(s.threads[u], s.owner == Some(u));
  }

  // ----- what each call gives its caller

  /** A thread's situation after one of its steps, in terms of the mutex and its guard. */
  predicate Owning<D>(s: State<D>, t: nat) {
    t < |s.threads| && s.owner == Some(t) && s.threads[t] == Thread(Running, 1)
  }

  predicate Without<D>(s: State<D>, t: nat, pc: Pc) {
    t < |s.threads| && s.owner != Some(t) && s.threads[t] == Thread(pc, 0)
  }

  lemma CallOutcome<D>(s: State<D>, t: nat, step: Step<D>)
    requires Exclusive(s) && Next(s, t, step).Some?
    ensures var u := Next(s, t, step).value;
            && (step.LockOk? ==> s.owner == None && Owning(u, t))
            && (step.LockFails? ==> u.owner == s.owner && u.threads[t] == Thread(Running, s.threads[t].guards))
            && (step.DropGuard? ==> u.owner == None && Without(u, t, Running))
            && (step.CallWait? ==> u.owner == None && Without(u, t, Asleep(step.cv)))
            && (step.WaitRefused? ==> u.owner == s.owner && u.threads[t] == Thread(WaitDone(step.rc), 0))
            && (step.Wake? ==> u.owner == s.owner && u.threads[t] == Thread(Waking(step.rc), 0))
            && (step.Reacquire? ==> s.owner == None && u.owner == Some(t)
                                    && u.threads[t] == Thread(WaitDone(s.threads[t].pc.rc), 0))
            && (step.WaitReturns? && s.threads[t].pc.rc == 0 ==> Owning(u, t))
            && (step.WaitReturns? && s.threads[t].pc.rc != 0 ==> u.owner == None && Without(u, t, Running))
  {
    assert Holds(s.threads[t], s.owner == Some(t));
  }

  /**
   In every run: a lock that succeeds and a wait that returns without error leave their thread the
   owner, with a guard; dropping the guard, starting to wait, and a wait that returns an error leave
   the mutex free and their thread without a guard.
   */
  lemma CallsDeliver<D>(run: Run<D>, n: nat, data: D, k: nat)
    requires IsRun(run, n, data) && k < |run.steps|
    ensures var (t, step) := run.steps[k];
            var s, u := run.states[k], run.states[k + 1];
            && (step.LockOk? ==> Owning(u, t))
            && (step.DropGuard? ==> u.owner == None && Without(u, t, Running))
            && (step.CallWait? ==> u.owner == None && Without(u, t, Asleep(step.cv)))
            && (step.WaitReturns? ==>
                  t < |s.threads| && s.threads[t].pc.WaitDone?
                  && if s.threads[t].pc.rc == 0 then Owning(u, t) else u.owner == None && Without(u, t, Running))
  {
    AlwaysExclusive(run, n, data, k);
    var (t, step) := run.steps[k];
    assert Next(run.states[k], t, step) == Some(run.states[k + 1]);
    CallOutcome(run.states[k], t, step);
  }

  /**
   Whoever owns the mutex can take the step that gives it back or hands over its guard, unless it has
   called `lock` again with its guard still live: then, and only then, it waits for itself.
   */
  lemma OwnerCanMove<D>(run: Run<D>, n: nat, data: D, k: nat, t: nat)
    requires IsRun(run, n, data) && k < |run.states| && run.states[k].owner == Some(t)
    ensures var s := run.states[k];
            && |s.threads| == n && t < n
            && (Next(s, t, DropGuard).Some? || Next(s, t, WaitReturns).Some? <==> !s.threads[t].pc.Locking?)
            && (s.threads[t].pc.Locking? ==> s.threads[t].guards == 1 && Next(s, t, LockOk).None?)
  {
    AlwaysExclusive(run, n, data, k);
    OwnerSteps(run.states[k], t);
  }

  lemma OwnerSteps<D>(s: State<D>, t: nat)
    requires Exclusive(s) && s.owner == Some(t)
    ensures Next(s, t, DropGuard).Some? || Next(s, t, WaitReturns).Some? <==> !s.threads[t].pc.Locking?
    ensures s.threads[t].pc.Locking? ==> s.threads[t].guards == 1 && Next(s, t, LockOk).None?
  {
    assert Holds(s.threads[t], s.owner == Some(t));
  }

  // ----- who is woken

  predicate SleepsOn<D>(s: State<D>, t: nat, cv: nat) {
    t < |s.threads| && s.threads[t].pc == Asleep(cv)
  }

  /**
   A notification wakes sleepers of its own condition variable only, without error: all of them, or
   one of them if there is any. Nobody else is touched, and neither are the mutex and the data.
   */
  lemma NotifyExact<D>(s: State<D>, t: nat, step: Step<D>, i: nat)
    requires Next(s, t, step).Some? && i < |s.threads|
    ensures var u := Next(s, t, step).value;
            && (step.NotifyAll? ==>
                  && |u.threads| == |s.threads| && u.owner == s.owner && u.data == s.data
                  && u.threads[i] == if SleepsOn(s, i, step.cv) then Thread(Waking(0), s.threads[i].guards)
                                     else s.threads[i])
            && (step.NotifyOne? ==>
                  && |u.threads| == |s.threads| && u.owner == s.owner && u.data == s.data
                  && (step.woken == None ==> !SleepsOn(s, i, step.cv))
                  && (step.woken.Some? ==> SleepsOn(s, step.woken.value, step.cv))
                  && u.threads[i] == if step.woken == Some(i) then Thread(Waking(0), s.threads[i].guards)
                                     else s.threads[i])
  {
  }

  // ----- the lock's history is serial

  /** The event at `i` continues the history before it. */
  ghost predicate Fits<D>(log: seq<Event<D>>, first: D, i: nat)
    requires i < |log|
  {
    if i % 2 == 0
    then log[i].Acquired? && log[i].data == (if i == 0 then first else log[i - 1].data)
    else log[i].Unlocked? && log[i].t == log[i - 1].t
  }

  /** Acquisitions and unlocks alternate, by the same thread, and the data is handed over unchanged. */
  ghost predicate Serial<D>(log: seq<Event<D>>, first: D) {
    forall i :: 0 <= i < |log| ==> Fits(log, first, i)
  }

  lemma SerialSnoc<D>(log: seq<Event<D>>, e: Event<D>, first: D)
    requires Serial(log, first) && Fits(log + [e], first, |log|)
    ensures Serial(log + [e], first)
  {
    forall i | 0 <= i < |log|
      ensures Fits(log + [e], first, i)
    {
      assert Fits(log, first, i);
    }
  }

  ghost predicate LogInv<D>(s: State<D>, first: D) {
    && Serial(s.log, first)
    && s.owner == (if |s.log| % 2 == 0 then None else Some(s.log[|s.log| - 1].t))
    && (s.owner.None? ==> s.data == if s.log == [] then first else s.log[|s.log| - 1].data)
  }

  lemma StepKeepsLog<D>(s: State<D>, t: nat, step: Step<D>, first: D)
    requires Exclusive(s) && LogInv(s, first) && Next(s, t, step).Some?
    ensures LogInv(Next(s, t, step).value, first)
  {
    assert Holds(s.threads[t], s.owner == Some(t));
    var u := Next(s, t, step).value;
    if |u.log| > |s.log| {
      SerialSnoc(s.log, u.log[|s.log|], first);
    }
  }

  /**
   Each acquisition is unlocked exactly once, by the thread that made it, before the next one; and
   the next owner, whether it locked or came back from a wait, finds the data as it was left.
   */
  lemma {:induction false} SerialHistory<D>(run: Run<D>, n: nat, data: D, k: nat)
    requires IsRun(run, n, data) && k < |run.states|
    ensures LogInv(run.states[k], data)
  {
    if k > 0 {
      SerialHistory(run, n, data, k - 1);
      AlwaysExclusive(run, n, data, k - 1);
      var (t, step) := run.steps[k - 1];
      StepKeepsLog(run.states[k - 1], t, step, data);
    }
  }

  // ----- data invariants

  /** The program restores `inv` before it drops a guard or starts to wait. */
  predicate Restores<D>(inv: D -> bool, s: State<D>, step: Step<D>) {
    step.DropGuard? || step.CallWait? || step.WaitRefused? ==> inv(s.data)
  }

  ghost predicate Disciplined<D>(inv: D -> bool, run: Run<D>)
    requires |run.states| == |run.steps| + 1
  {
    forall i :: 0 <= i < |run.steps| ==> Restores(inv, run.states[i], run.steps[i].1)
  }

  /** The invariant holds whenever nobody can be in the middle of an update. */
  predicate Settled<D>(inv: D -> bool, s: State<D>) {
    && (s.owner.None? ==> inv(s.data))
    && forall t :: 0 <= t < |s.threads| && s.threads[t].pc.WaitDone? ==> inv(s.data)
  }

  lemma StepKeepsSettled<D>(inv: D -> bool, s: State<D>, t: nat, step: Step<D>)
    requires Exclusive(s) && Settled(inv, s) && Next(s, t, step).Some? && Restores(inv, s, step)
    ensures Settled(inv, Next(s, t, step).value)
  {
    assert Holds(s.threads[t], s.owner == Some(t));
    forall u | 0 <= u < |s.threads|
      ensures Holds(s.threads[u], s.owner == Some(u))
    {
    }
  }

  lemma {:induction false} AlwaysSettled<D>(inv: D -> bool, run: Run<D>, n: nat, data: D, k: nat)
    requires IsRun(run, n, data) && Disciplined(inv, run) && inv(data) && k < |run.states|
    ensures Settled(inv, run.states[k])
  {
    if k > 0 {
      AlwaysSettled(inv, run, n, data, k - 1);
      AlwaysExclusive(run, n, data, k - 1);
      var (t, step) := run.steps[k - 1];
      assert Next(run.states[k - 1], t, step) == Some(run.states[k]);
      assert Restores(inv, run.states[k - 1], run.steps[k - 1].1);
      StepKeepsSettled(inv, run.states[k - 1], t, step);
    }
  }

  /**
   Monitor soundness: a thread gains a guard only by its own successful lock or by a wait that
   returns without error. A data invariant that the program restores before every guard drop and
   every wait holds whenever a guard is gained, and whenever a wait returns, after spurious
   wake-ups, refusals and errors alike.
   */
  lemma GuardFindsInvariant<D>(inv: D -> bool, run: Run<D>, n: nat, data: D, k: nat, t: nat)
    requires IsRun(run, n, data) && Disciplined(inv, run) && inv(data) && k < |run.steps| && t < n
    ensures |run.states[k].threads| == |run.states[k + 1].threads| == n
    ensures run.states[k + 1].threads[t].guards > run.states[k].threads[t].guards ==>
              && t == run.steps[k].0 && (run.steps[k].1.LockOk? || run.steps[k].1.WaitReturns?)
              && inv(run.states[k + 1].data)
    ensures run.steps[k].1.WaitReturns? ==> inv(run.states[k].data) && inv(run.states[k + 1].data)
  {
    AlwaysSettled(inv, run, n, data, k);
    AlwaysExclusive(run, n, data, k);
    AlwaysExclusive(run, n, data, k + 1);
    var (who, step) := run.steps[k];
    assert Next(run.states[k], who, step) == Some(run.states[k + 1]);
    OnlyOwnGuards(run.states[k], who, step, t);
    if step.WaitReturns? {
      ReturnsSettled(inv, run.states[k], who);
    }
  }

  lemma ReturnsSettled<D>(inv: D -> bool, s: State<D>, who: nat)
    requires Settled(inv, s) && Next(s, who, WaitReturns).Some?
    ensures inv(s.data) && Next(s, who, WaitReturns).value.data == s.data
  {
  }

  /** A step gives a guard to nobody but the thread that takes it, and only when it gets the mutex back. */
  lemma OnlyOwnGuards<D>(s: State<D>, who: nat, step: Step<D>, t: nat)
    requires Next(s, who, step).Some? && t < |s.threads|
    ensures var u := Next(s, who, step).value;
            && |u.threads| == |s.threads|
            && (u.threads[t].guards > s.threads[t].guards ==>
                  && t == who && u.data == s.data
                  && ((step.LockOk? && s.owner == None) || (step.WaitReturns? && s.threads[t].pc.WaitDone?)))
  {
  }
}
