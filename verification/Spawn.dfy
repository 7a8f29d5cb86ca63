/**
 Spawning, joining and detaching one thread, as a transition system over every interleaving of the
 spawner and the new thread and every return code of the pthread calls.

 The two threads share a result slot through a reference count, and hand a heap packet (closure
 plus one reference) from one to the other through a raw pointer. Every step that touches the slot,
 the packet or the count records a misuse when what it touches is not there.
 */
module Spawn {
  import opened Errors

  /** The value a closure returns; only its identity matters. */
  type Value = int

  datatype Outcome =
    | Returned(v: Value)    // join handed the value over
    | SlotEmpty             // join found nothing in the slot (the EINVAL fallback)
    | JoinFailed(rc: int)   // pthread_join returned an error
    | Abandoned             // the handle was dropped without joining

  /** Where the thread that called `spawn`, later the owner of the handle, is. */
  datatype Parent =
    | Starting
    | SharedMade
    | PacketMade
    | AttrLive
    | AttrSized
    | AttrDone(rc: int)
    | CreateDone(rc: int)
    | PacketReclaimed(rc: int)
    | SpawnFailed(rc: int)
    | Holding
    | JoinDone(rc: int)
    | Dropping(outcome: Outcome)
    | Releasing(outcome: Outcome)
    | Gone(outcome: Outcome)

  /** Where the trampoline is. */
  datatype Child =
    | Absent
    | Ready
    | Running
    | Computed(v: Value)
    | Stored(v: Value)
    | Released(v: Value)
    | Exited(v: Value)

  datatype Slot = Unmade | Live(content: Option<Value>) | Freed

  datatype Packet = Unboxed | Packed | Reclaimed

  /** How often each one-shot event has happened. */
  datatype Ledger = Ledger(
    closureRuns: nat, closureDrops: nat, packetFrees: nat, slotFrees: nat,
    valuesReturned: nat, valuesDropped: nat,
    joins: nat, detaches: nat, attrInits: nat, attrDestroys: nat)

  datatype State = State(
    sized: bool,      // a stack size was requested
    parent: Parent,
    child: Child,
    refs: nat,        // strong count of the shared slot
    slot: Slot,
    packet: Packet,
    joined: bool,     // the handle's flag
    ledger: Ledger,
    misuse: bool)

  function Init(sized: bool): State {
    State(sized, Starting, Absent, 0, Unmade, Unboxed, false, Ledger(0, 0, 0, 0, 0, 0, 0, 0, 0, 0), false)
  }

  datatype Step =
    // the spawner
    | MakeShared | BoxPacket
    | AttrInit(rc: int) | SetStackSize(rc: int) | Create(rc: int) | AttrDestroy
    | ReclaimPacket | DropLocal | MakeHandle
    | Join(rc: int) | Take | Abandon | RunDrop | ReleaseHandle
    // the new thread
    | Unbox | RunClosure(v: Value) | Store | ReleaseThread | Exit

  predicate ByChild(step: Step) {
    step.Unbox? || step.RunClosure? || step.Store? || step.ReleaseThread? || step.Exit?
  }

  /** Drop one reference; the last one frees the slot and whatever it still holds. */
  function DropRef(s: State): State {
    if s.refs == 0 then s.(misuse := true)
    else if s.refs > 1 then s.(refs := s.refs - 1)
    else
      var leftover := if s.slot.Live? && s.slot.content.Some? then 1 else 0;
      s.(refs := 0, slot := Freed, misuse := s.misuse || !s.slot.Live?,
         ledger := s.ledger.(slotFrees := s.ledger.slotFrees + 1,
                             valuesDropped := s.ledger.valuesDropped + leftover))
  }

  /** Take the packet out of its box; whoever does it twice commits a double free. */
  function OpenPacket(s: State): State {
    s.(packet := Reclaimed, misuse := s.misuse || !s.packet.Packed?,
       ledger := s.ledger.(packetFrees := s.ledger.packetFrees + 1))
  }

  function CreateThread(s: State, rc: int): State {
    s.(child := if rc == 0 then Ready else s.child,
       parent := if s.sized then AttrDone(rc) else CreateDone(rc))
  }

  function TakeValue(s: State): State {
    if !s.slot.Live? then s.(misuse := true)
    else match s.slot.content
      case None => s.(parent := Dropping(SlotEmpty))
      case Some(v) =>
        s.(parent := Dropping(Outcome.Returned(v)), slot := Live(None),
           ledger := s.ledger.(valuesReturned := s.ledger.valuesReturned + 1))
  }

  function StoreValue(s: State, v: Value): State {
    s.(child := Stored(v), slot := Live(Some(v)), misuse := s.misuse || !s.slot.Live?)
  }

  function Next(s: State, step: Step): Option<State> {
    if ByChild(step) then NextChild(s, step) else NextParent(s, step)
  }

  function NextParent(s: State, step: Step): Option<State> {
    match (s.parent, step)
    case (Starting, MakeShared) => Some(s.(parent := SharedMade, slot := Live(None), refs := 1))
    case (SharedMade, BoxPacket) => Some(s.(parent := PacketMade, packet := Packed, refs := s.refs + 1))
    case (PacketMade, Create(rc)) => if s.sized then None else Some(CreateThread(s, rc))
    case (PacketMade, AttrInit(rc)) =>
      if !s.sized then None
      else if rc != 0 then Some(s.(parent := CreateDone(rc)))
      else Some(s.(parent := AttrLive, ledger := s.ledger.(attrInits := s.ledger.attrInits + 1)))
    case (AttrLive, SetStackSize(rc)) => Some(s.(parent := if rc != 0 then AttrDone(rc) else AttrSized))
    case (AttrSized, Create(rc)) => Some(CreateThread(s, rc))
    case (AttrDone(rc), AttrDestroy) =>
      Some(s.(parent := CreateDone(rc), ledger := s.ledger.(attrDestroys := s.ledger.attrDestroys + 1)))
    case (CreateDone(rc), ReclaimPacket) =>
      if rc == 0 then None
      else
        var t := DropRef(OpenPacket(s));
        Some(t.(parent := PacketReclaimed(rc), ledger := t.ledger.(closureDrops := t.ledger.closureDrops + 1)))
    case (PacketReclaimed(rc), DropLocal) => Some(DropRef(s).(parent := SpawnFailed(rc)))
    case (CreateDone(rc), MakeHandle) => if rc != 0 then None else Some(s.(parent := Holding, joined := false))
    case (Holding, Join(rc)) =>
      // the kernel's promise: success only after the thread has exited
      if rc == 0 && !s.child.Exited? then None
      else Some(s.(parent := if rc == 0 then JoinDone(0) else Dropping(Outcome.JoinFailed(rc)), joined := true,
                   ledger := s.ledger.(joins := s.ledger.joins + 1)))
    case (JoinDone(_), Take) => Some(TakeValue(s))
    case (Holding, Abandon) => Some(s.(parent := Dropping(Abandoned)))
    case (Dropping(o), RunDrop) =>
      Some(s.(parent := Releasing(o),
              ledger := if s.joined then s.ledger else s.ledger.(detaches := s.ledger.detaches + 1)))
    case (Releasing(o), ReleaseHandle) => Some(DropRef(s).(parent := Gone(o)))
    case _ => None
  }

  function NextChild(s: State, step: Step): Option<State> {
    match (s.child, step)
    case (Ready, Unbox) => Some(OpenPacket(s).(child := Running))
    case (Running, RunClosure(v)) =>
      Some(s.(child := Computed(v), ledger := s.ledger.(closureRuns := s.ledger.closureRuns + 1)))
    case (Computed(v), Store) => Some(StoreValue(s, v))
    case (Stored(v), ReleaseThread) => Some(DropRef(s).(child := Released(v)))
    case (Released(v), Exit) => Some(s.(child := Exited(v)))
    case _ => None
  }

  /** Run a list of steps; `None` when one of them is not enabled. */
  function Exec(s: State, steps: seq<Step>): Option<State> {
    if steps == [] then Some(s)
    else match Exec(s, steps[..|steps| - 1])
      case None => None
      case Some(t) => Next(t, steps[|steps| - 1])
  }

  // ----- what every reachable state satisfies

  /** `pthread_create` has succeeded. */
  predicate Created(p: Parent) {
    match p
    case AttrDone(rc) => rc == 0
    case CreateDone(rc) => rc == 0
    case Holding | JoinDone(_) | Dropping(_) | Releasing(_) | Gone(_) => true
    case _ => false
  }

  predicate Reclaims(p: Parent) {
    p.PacketReclaimed? || p.SpawnFailed?
  }

  function Bit(b: bool): nat {
    if b then 1 else 0
  }

  /** References held by the spawner's frame or the handle, by the packet, and by the thread. */
  function Owners(s: State): nat {
    Bit(!s.parent.Starting? && !s.parent.SpawnFailed? && !s.parent.Gone?)
    + Bit(s.packet.Packed?)
    + Bit(s.child.Running? || s.child.Computed? || s.child.Stored?)
  }

  predicate HasStored(c: Child) {
    c.Stored? || c.Released? || c.Exited?
  }

  predicate HasComputed(c: Child) {
    c.Computed? || HasStored(c)
  }

  predicate HandedOver(p: Parent) {
    (p.Dropping? || p.Releasing? || p.Gone?) && p.outcome.Returned?
  }

  predicate OutcomeInv(s: State) {
    s.parent.Dropping? || s.parent.Releasing? || s.parent.Gone? ==>
      && s.parent.outcome != SlotEmpty
      && (s.parent.outcome.Returned? ==> s.child == Exited(s.parent.outcome.v))
      && (s.joined <==> s.parent.outcome != Abandoned)
  }

  /** The slot is there from its creation until its last reference, holding what was stored and not taken. */
  predicate SlotInv(s: State) {
    s.slot ==
      if s.parent.Starting? then Unmade
      else if s.refs == 0 then Freed
      else Live(if HasStored(s.child) && !HandedOver(s.parent) then Some(s.child.v) else None)
  }

  predicate PacketInv(s: State) {
    s.packet ==
      if s.parent.Starting? || s.parent.SharedMade? then Unboxed
      else if Reclaims(s.parent) || !(s.child.Absent? || s.child.Ready?) then Reclaimed
      else Packed
  }

  predicate LedgerInv(s: State) {
    var l := s.ledger;
    && l.closureRuns == Bit(HasComputed(s.child))
    && l.closureDrops == Bit(Reclaims(s.parent))
    && l.packetFrees == Bit(s.packet.Reclaimed?)
    && l.slotFrees == Bit(s.slot.Freed?)
    && l.valuesReturned == Bit(HandedOver(s.parent))
    && l.valuesDropped == Bit(s.slot.Freed? && HasStored(s.child) && !HandedOver(s.parent))
    && l.joins == Bit(s.joined)
    && l.detaches == Bit((s.parent.Releasing? || s.parent.Gone?) && !s.joined)
    && l.attrInits == l.attrDestroys + Bit(s.parent.AttrLive? || s.parent.AttrSized? || s.parent.AttrDone?)
  }

  predicate Inv(s: State) {
    && !s.misuse
    && s.refs == Owners(s)
    && (Created(s.parent) <==> !s.child.Absent?)
    && (s.joined ==> s.parent.JoinDone? || s.parent.Dropping? || s.parent.Releasing? || s.parent.Gone?)
    && (s.parent.JoinDone? ==> s.joined && s.child.Exited?)
    && (Reclaims(s.parent) ==> s.parent.rc != 0)
    && (s.parent.AttrLive? || s.parent.AttrSized? || s.parent.AttrDone? ==> s.sized)
    && OutcomeInv(s) && SlotInv(s) && PacketInv(s) && LedgerInv(s)
  }

  lemma SpawnStepKeepsInv(s: State, step: Step)
    requires Inv(s) && NextParent(s, step).Some?
    requires step.MakeShared? || step.BoxPacket? || step.AttrInit? || step.SetStackSize? || step.AttrDestroy?
    ensures Inv(NextParent(s, step).value)
  {
  }

  lemma CreateStepKeepsInv(s: State, step: Step)
    requires Inv(s) && NextParent(s, step).Some?
    requires step.Create? || step.ReclaimPacket? || step.DropLocal? || step.MakeHandle?
    ensures Inv(NextParent(s, step).value)
  {
  }

  lemma JoinStepKeepsInv(s: State, step: Step)
    requires Inv(s) && NextParent(s, step).Some?
    requires step.Join? || step.Take? || step.Abandon?
    ensures Inv(NextParent(s, step).value)
  {
  }

  lemma HandleStepKeepsInv(s: State, step: Step)
    requires Inv(s) && NextParent(s, step).Some?
    requires step.RunDrop? || step.ReleaseHandle?
    ensures Inv(NextParent(s, step).value)
  {
  }

  lemma ChildStepKeepsInv(s: State, step: Step)
    requires Inv(s) && ByChild(step) && NextChild(s, step).Some?
    ensures Inv(NextChild(s, step).value)
  {
  }

  lemma StepKeepsInv(s: State, step: Step)
    requires Inv(s) && Next(s, step).Some?
    ensures Inv(Next(s, step).value)
  {
    if ByChild(step) {
      ChildStepKeepsInv(s, step);
    } else if step.Join? || step.Take? || step.Abandon? {
      JoinStepKeepsInv(s, step);
    } else if step.RunDrop? || step.ReleaseHandle? {
      HandleStepKeepsInv(s, step);
    } else if step.MakeShared? || step.BoxPacket? || step.AttrInit? || step.SetStackSize? || step.AttrDestroy? {
      SpawnStepKeepsInv(s, step);
    } else {
      CreateStepKeepsInv(s, step);
    }
  }

  /** Every state reached by any interleaving and any return codes satisfies the invariant. */
  lemma {:induction false} Reachable(sized: bool, steps: seq<Step>)
    ensures Exec(Init(sized), steps).Some? ==> Inv(Exec(Init(sized), steps).value)
  {
    if steps != [] {
      var front := steps[..|steps| - 1];
      Reachable(sized, front);
      if Exec(Init(sized), steps).Some? {
        StepKeepsInv(Exec(Init(sized), front).value, steps[|steps| - 1]);
      }
    }
  }

  // ----- the protocol's promises

  /** The thread has exited or was never created, and no handle is left. */
  predicate Quiescent(s: State) {
    (s.parent.SpawnFailed? || s.parent.Gone?) && (s.child.Absent? || s.child.Exited?)
  }

  /**
   Once everything is over: the closure was consumed exactly once (run, or dropped when creation
   failed), its value went to exactly one place, packet and slot were freed exactly once, the
   thread was joined or detached by exactly one call, and every attribute object was destroyed.
   */
  lemma ExactlyOnce(sized: bool, steps: seq<Step>)
    requires Exec(Init(sized), steps).Some? && Quiescent(Exec(Init(sized), steps).value)
    ensures var s := Exec(Init(sized), steps).value;
            var l := s.ledger;
            && l.closureRuns + l.closureDrops == 1
            && (l.closureDrops == 1 <==> s.parent.SpawnFailed?)
            && l.valuesReturned + l.valuesDropped == l.closureRuns
            && l.packetFrees == 1 && l.slotFrees == 1 && s.refs == 0
            && l.joins + l.detaches == Bit(s.parent.Gone?)
            && l.attrInits == l.attrDestroys
  {
    Reachable(sized, steps);
  }

  /** In every reachable state, nothing has happened twice and nothing freed was touched. */
  lemma AtMostOnce(sized: bool, steps: seq<Step>)
    requires Exec(Init(sized), steps).Some?
    ensures var s := Exec(Init(sized), steps).value;
            var l := s.ledger;
            && !s.misuse && s.refs == Owners(s)
            && l.closureRuns + l.closureDrops <= 1 && l.valuesReturned + l.valuesDropped <= l.closureRuns
            && l.packetFrees <= 1 && l.slotFrees <= 1 && l.joins + l.detaches <= 1
  {
    Reachable(sized, steps);
  }

  /** The slot is unsynchronised, but the thread's store and the joiner's take never compete. */
  lemma RaceFree(sized: bool, steps: seq<Step>)
    requires Exec(Init(sized), steps).Some?
    ensures var s := Exec(Init(sized), steps).value;
            !(Next(s, Store).Some? && Next(s, Take).Some?)
  {
    Reachable(sized, steps);
    NoRace(Exec(Init(sized), steps).value);
  }

  lemma NoRace(s: State)
    requires Inv(s)
    ensures !(Next(s, Store).Some? && Next(s, Take).Some?)
  {
  }

  /**
   A join that reports success returns the value the closure computed, so its fallback for an
   empty slot is dead code; a join or a drop that reports otherwise leaves the value to be dropped.
   */
  lemma JoinReturnsTheValue(sized: bool, steps: seq<Step>)
    requires Exec(Init(sized), steps).Some?
    ensures var s := Exec(Init(sized), steps).value;
            s.parent.Dropping? || s.parent.Releasing? || s.parent.Gone? ==>
              && s.parent.outcome != SlotEmpty
              && (s.parent.outcome.Returned? ==> RunClosure(s.parent.outcome.v) in steps)
              && (s.parent.outcome.JoinFailed? ==> Join(s.parent.outcome.rc) in steps && s.parent.outcome.rc != 0)
              && (s.parent.outcome.Returned? <==> Join(0) in steps)
  {
    Reachable(sized, steps);
    SuccessfulJoin(sized, steps);
    var s := Exec(Init(sized), steps).value;
    if HasComputed(s.child) {
      ValueFromClosure(sized, steps);
    }
    if FailedJoin(s.parent) {
      CodeFromJoin(sized, steps);
    }
  }

  /** `pthread_join` has returned 0: its value has been or is about to be taken. */
  predicate Joined(p: Parent) {
    p.JoinDone? || HandedOver(p)
  }

  lemma JoinedAfter(s: State, step: Step)
    requires Inv(s) && Next(s, step).Some?
    ensures Joined(Next(s, step).value.parent) <==> Joined(s.parent) || step == Join(0)
  {
    StepKeepsInv(s, step);
    if ByChild(step) {
      ChildKeepsParent(s, step);
    } else {
      JoinedAfterParent(s, step);
    }
  }

  lemma JoinedAfterParent(s: State, step: Step)
    requires Inv(s) && NextParent(s, step).Some?
    ensures Joined(NextParent(s, step).value.parent) <==> Joined(s.parent) || step == Join(0)
  {
  }

  /** A join that succeeds leads to a returned value, and nothing else does. */
  lemma {:induction false} SuccessfulJoin(sized: bool, steps: seq<Step>)
    requires Exec(Init(sized), steps).Some?
    ensures Joined(Exec(Init(sized), steps).value.parent) <==> Join(0) in steps
  {
    if steps != [] {
      var front, last := steps[..|steps| - 1], steps[|steps| - 1];
      SuccessfulJoin(sized, front);
      Reachable(sized, front);
      var s := Exec(Init(sized), front).value;
      JoinedNext(s, last, Exec(Init(sized), steps).value, front, steps);
    }
  }

  lemma JoinedNext(s: State, step: Step, t: State, front: seq<Step>, steps: seq<Step>)
    requires Inv(s) && Next(s, step) == Some(t) && (Joined(s.parent) <==> Join(0) in front)
    requires steps != [] && front == steps[..|steps| - 1] && step == steps[|steps| - 1]
    ensures Joined(t.parent) <==> Join(0) in steps
  {
    JoinedAfter(s, step);
    assert steps == front + [step];
  }

  predicate FailedJoin(p: Parent) {
    (p.Dropping? || p.Releasing? || p.Gone?) && p.outcome.JoinFailed?
  }

  lemma ValueProvenance(s: State, step: Step)
    requires Next(s, step).Some? && HasComputed(Next(s, step).value.child)
    ensures var t := Next(s, step).value;
            (HasComputed(s.child) && t.child.v == s.child.v) || step == RunClosure(t.child.v)
  {
    if !ByChild(step) {
      ParentKeepsValue(s, step);
    }
  }

  lemma ParentKeepsValue(s: State, step: Step)
    requires NextParent(s, step).Some?
    ensures var t := NextParent(s, step).value; t.child == s.child || t.child.Ready?
  {
  }

  lemma CodeProvenance(s: State, step: Step)
    requires NextParent(s, step).Some? && FailedJoin(NextParent(s, step).value.parent)
    ensures var t := NextParent(s, step).value;
            || (FailedJoin(s.parent) && s.parent.outcome == t.parent.outcome)
            || (step == Join(t.parent.outcome.rc) && t.parent.outcome.rc != 0)
  {
  }

  lemma ChildKeepsParent(s: State, step: Step)
    requires NextChild(s, step).Some?
    ensures NextChild(s, step).value.parent == s.parent
  {
  }

  /** A value the thread has computed was returned by the closure. */
  lemma {:induction false} ValueFromClosure(sized: bool, steps: seq<Step>)
    requires Exec(Init(sized), steps).Some? && HasComputed(Exec(Init(sized), steps).value.child)
    ensures RunClosure(Exec(Init(sized), steps).value.child.v) in steps
  {
    if steps != [] {
      var front, last := steps[..|steps| - 1], steps[|steps| - 1];
      var s := Exec(Init(sized), front).value;
      ValueProvenance(s, last);
      if last != RunClosure(Exec(Init(sized), steps).value.child.v) {
        ValueFromClosure(sized, front);
      }
    }
  }

  /** A failed join's code is one that pthread_join returned. */
  lemma {:induction false} CodeFromJoin(sized: bool, steps: seq<Step>)
    requires Exec(Init(sized), steps).Some? && FailedJoin(Exec(Init(sized), steps).value.parent)
    ensures var rc := Exec(Init(sized), steps).value.parent.outcome.rc; rc != 0 && Join(rc) in steps
  {
    if steps != [] {
      var front, last := steps[..|steps| - 1], steps[|steps| - 1];
      var s := Exec(Init(sized), front).value;
      if !ByChild(last) {
        CodeProvenance(s, last);
      } else {
        ChildKeepsParent(s, last);
      }
      if !last.Join? {
        CodeFromJoin(sized, front);
      }
    }
  }

  // ----- when spawn fails, and with which code

  /** Creating the thread has failed, or is failing, with this code; at the end it is `spawn`'s error. */
  predicate FailsWith(p: Parent, rc: int) {
    rc != 0 && (p == AttrDone(rc) || p == CreateDone(rc) || p == PacketReclaimed(rc) || p == SpawnFailed(rc))
  }

  /** One of the three calls that create a thread returns this error. */
  predicate FailedCall(step: Step, rc: int) {
    rc != 0 && (step == AttrInit(rc) || step == SetStackSize(rc) || step == Create(rc))
  }

  lemma FailsAfter(s: State, step: Step, rc: int)
    requires Inv(s) && NextParent(s, step).Some?
    ensures FailsWith(NextParent(s, step).value.parent, rc) <==> FailsWith(s.parent, rc) || FailedCall(step, rc)
  {
  }

  lemma FailsNext(s: State, step: Step, rc: int)
    requires Inv(s) && Next(s, step).Some?
    ensures FailsWith(Next(s, step).value.parent, rc) <==> FailsWith(s.parent, rc) || FailedCall(step, rc)
  {
    if ByChild(step) {
      ChildKeepsParent(s, step);
    } else {
      FailsAfter(s, step, rc);
    }
  }

  predicate SomeFailed(steps: seq<Step>, rc: int) {
    exists i :: 0 <= i < |steps| && FailedCall(steps[i], rc)
  }

  lemma SomeFailedSnoc(steps: seq<Step>, step: Step, rc: int)
    ensures SomeFailed(steps + [step], rc) <==> SomeFailed(steps, rc) || FailedCall(step, rc)
  {
    var all := steps + [step];
    assert all[|steps|] == step && forall i :: 0 <= i < |steps| ==> all[i] == steps[i];
  }

  lemma {:induction false} FailureCode(sized: bool, steps: seq<Step>, rc: int)
    requires Exec(Init(sized), steps).Some?
    ensures FailsWith(Exec(Init(sized), steps).value.parent, rc) <==> SomeFailed(steps, rc)
  {
    if steps != [] {
      var front, last := steps[..|steps| - 1], steps[|steps| - 1];
      FailureCode(sized, front, rc);
      Reachable(sized, front);
      ReportedNext(Exec(Init(sized), front).value, last, Exec(Init(sized), steps).value, front, steps, rc);
    }
  }

  /**
   An error of any of the three calls that create the thread, and nothing else, makes `spawn` fail,
   with that very code; no thread is created then.
   */
  lemma FailureIsReported(sized: bool, steps: seq<Step>, rc: int)
    requires Exec(Init(sized), steps).Some?
    ensures var s := Exec(Init(sized), steps).value;
            && (FailsWith(s.parent, rc) <==> SomeFailed(steps, rc))
            && (FailsWith(s.parent, rc) ==> s.child.Absent?)
  {
    Reachable(sized, steps);
    FailureCode(sized, steps, rc);
    FailedHasNoChild(Exec(Init(sized), steps).value, rc);
  }

  lemma ReportedNext(s: State, step: Step, t: State, front: seq<Step>, steps: seq<Step>, rc: int)
    requires Inv(s) && Next(s, step) == Some(t) && (FailsWith(s.parent, rc) <==> SomeFailed(front, rc))
    requires steps != [] && front == steps[..|steps| - 1] && step == steps[|steps| - 1]
    ensures FailsWith(t.parent, rc) <==> SomeFailed(steps, rc)
  {
    assert steps == front + [step];
    FailsNext(s, step, rc);
    SomeFailedSnoc(front, step, rc);
  }

  lemma FailedHasNoChild(s: State, rc: int)
    requires Inv(s)
    ensures FailsWith(s.parent, rc) ==> s.child.Absent?
  {
  }

  /** `create_thread` has returned. */
  predicate PastCreation(p: Parent) {
    p.CreateDone? || Reclaims(p) || p.Holding? || p.JoinDone? || p.Dropping? || p.Releasing? || p.Gone?
  }

  lemma PastCreationCases(s: State)
    requires Inv(s) && PastCreation(s.parent)
    ensures !Created(s.parent) <==> exists rc :: FailsWith(s.parent, rc)
  {
    if !Created(s.parent) {
      assert FailsWith(s.parent, s.parent.rc);
    }
  }

  /** There is a thread, and a handle for it, exactly when none of the three calls failed. */
  lemma HandleUnlessFailed(sized: bool, steps: seq<Step>)
    requires Exec(Init(sized), steps).Some? && PastCreation(Exec(Init(sized), steps).value.parent)
    ensures var s := Exec(Init(sized), steps).value;
            && (Created(s.parent) <==> forall rc :: !SomeFailed(steps, rc))
            && (s.parent.SpawnFailed? ==> SomeFailed(steps, s.parent.rc))
  {
    Reachable(sized, steps);
    var s := Exec(Init(sized), steps).value;
    PastCreationCases(s);
    forall rc
      ensures FailsWith(s.parent, rc) <==> SomeFailed(steps, rc)
    {
      FailureIsReported(sized, steps, rc);
    }
    if s.parent.SpawnFailed? {
      assert FailsWith(s.parent, s.parent.rc);
    }
  }

  /** How far the attributes have been set up, as far as the calls made show. */
  predicate SizedInv(s: State, steps: seq<Step>) {
    && (s.parent.AttrLive? || s.parent.AttrSized? ==> AttrInit(0) in steps)
    && (s.parent.AttrSized? ==> SetStackSize(0) in steps)
    && (s.child.Absent? ==> Create(0) !in steps)
    && (!s.child.Absent? ==> Create(0) in steps && (s.sized ==> AttrInit(0) in steps && SetStackSize(0) in steps))
  }

  lemma SizedNext(s: State, step: Step, t: State, front: seq<Step>, steps: seq<Step>)
    requires Inv(s) && Next(s, step) == Some(t) && SizedInv(s, front)
    requires steps != [] && front == steps[..|steps| - 1] && step == steps[|steps| - 1]
    ensures SizedInv(t, steps) && t.sized == s.sized
  {
    assert steps == front + [step];
    if ByChild(step) {
      SizedNextChild(s, step, front);
    } else {
      SizedNextParent(s, step, front);
    }
  }

  lemma SizedNextChild(s: State, step: Step, front: seq<Step>)
    requires NextChild(s, step).Some? && SizedInv(s, front)
    ensures SizedInv(NextChild(s, step).value, front + [step]) && NextChild(s, step).value.sized == s.sized
  {
    ChildKeepsParent(s, step);
  }

  lemma SizedNextParent(s: State, step: Step, front: seq<Step>)
    requires Inv(s) && NextParent(s, step).Some? && SizedInv(s, front)
    ensures SizedInv(NextParent(s, step).value, front + [step]) && NextParent(s, step).value.sized == s.sized
  {
  }

  lemma {:induction false} AlwaysSized(sized: bool, steps: seq<Step>)
    requires Exec(Init(sized), steps).Some?
    ensures SizedInv(Exec(Init(sized), steps).value, steps) && Exec(Init(sized), steps).value.sized == sized
  {
    if steps != [] {
      var front, last := steps[..|steps| - 1], steps[|steps| - 1];
      AlwaysSized(sized, front);
      Reachable(sized, front);
      SizedNext(Exec(Init(sized), front).value, last, Exec(Init(sized), steps).value, front, steps);
    }
  }

  /** A thread exists exactly when pthread_create succeeded, and has the stack size that was asked for. */
  lemma CreatedAsAsked(sized: bool, steps: seq<Step>)
    requires Exec(Init(sized), steps).Some?
    ensures var s := Exec(Init(sized), steps).value;
            && (!s.child.Absent? <==> Create(0) in steps)
            && (!s.child.Absent? && sized ==> AttrInit(0) in steps && SetStackSize(0) in steps)
  {
    AlwaysSized(sized, steps);
  }

  // ----- every run comes to an end, and only there

  function ParentRank(p: Parent): nat {
    match p
    case Starting => 12
    case SharedMade => 11
    case PacketMade => 10
    case AttrLive => 9
    case AttrSized => 8
    case AttrDone(_) => 7
    case CreateDone(_) => 6
    case Holding => 5
    case JoinDone(_) => 4
    case Dropping(_) => 3
    case Releasing(_) => 2
    case PacketReclaimed(_) => 1
    case SpawnFailed(_) | Gone(_) => 0
  }

  function ChildRank(c: Child): nat {
    match c
    case Absent => 6
    case Ready => 5
    case Running => 4
    case Computed(_) => 3
    case Stored(_) => 2
    case Released(_) => 1
    case Exited(_) => 0
  }

  function Rank(s: State): nat {
    ParentRank(s.parent) + ChildRank(s.child)
  }

  lemma ParentDescends(s: State, step: Step)
    requires Inv(s) && NextParent(s, step).Some?
    ensures Rank(NextParent(s, step).value) < Rank(s)
  {
  }

  lemma ChildDescends(s: State, step: Step)
    requires NextChild(s, step).Some?
    ensures Rank(NextChild(s, step).value) < Rank(s)
  {
  }

  lemma StepDescends(s: State, step: Step)
    requires Inv(s) && Next(s, step).Some?
    ensures Rank(Next(s, step).value) < Rank(s)
  {
    if ByChild(step) {
      ChildDescends(s, step);
    } else {
      ParentDescends(s, step);
    }
  }

  /** No run is longer than eighteen steps. */
  lemma {:induction false} RunsAreShort(sized: bool, steps: seq<Step>)
    requires Exec(Init(sized), steps).Some?
    ensures |steps| + Rank(Exec(Init(sized), steps).value) <= 18
  {
    if steps != [] {
      var front := steps[..|steps| - 1];
      RunsAreShort(sized, front);
      Reachable(sized, front);
      StepDescends(Exec(Init(sized), front).value, steps[|steps| - 1]);
    }
  }

  /** A reachable state is stuck exactly when it is quiescent: nothing deadlocks, nothing is left over. */
  lemma StuckOnlyWhenQuiescent(sized: bool, steps: seq<Step>)
    requires Exec(Init(sized), steps).Some?
    ensures var s := Exec(Init(sized), steps).value;
            Quiescent(s) <==> forall step :: Next(s, step).None?
  {
    Reachable(sized, steps);
    var s := Exec(Init(sized), steps).value;
    if !Quiescent(s) {
      SomeStepIsEnabled(s);
    } else {
      forall step
        ensures Next(s, step).None?
      {
        NothingAfterTheEnd(s, step);
      }
    }
  }

  lemma SomeStepIsEnabled(s: State)
    requires Inv(s) && !Quiescent(s)
    ensures Next(s, SomeStep(s)).Some?
  {
  }

  lemma NothingAfterTheEnd(s: State, step: Step)
    requires Quiescent(s)
    ensures Next(s, step).None?
  {
  }

  /**
   A handle can always be joined: as long as pthread_join cannot return success, the thread it waits
   for can take a step.
   */
  lemma JoinIsNeverStuck(sized: bool, steps: seq<Step>)
    requires Exec(Init(sized), steps).Some? && Exec(Init(sized), steps).value.parent.Holding?
    ensures var s := Exec(Init(sized), steps).value;
            Next(s, Join(0)).None? <==> exists step :: ByChild(step) && Next(s, step).Some?
  {
    Reachable(sized, steps);
    var s := Exec(Init(sized), steps).value;
    if !s.child.Exited? {
      var step := ChildStep(s.child);
      assert ByChild(step) && Next(s, step).Some?;
    }
  }

  function ChildStep(c: Child): Step {
    match c
    case Ready => Unbox
    case Running => RunClosure(0)
    case Computed(_) => Store
    case Stored(_) => ReleaseThread
    case _ => Exit
  }

  function SomeStep(s: State): Step {
    match s.parent
    case Starting => MakeShared
    case SharedMade => BoxPacket
    case PacketMade => if s.sized then AttrInit(0) else Create(0)
    case AttrLive => SetStackSize(0)
    case AttrSized => Create(0)
    case AttrDone(_) => AttrDestroy
    case CreateDone(rc) => if rc == 0 then MakeHandle else ReclaimPacket
    case PacketReclaimed(_) => DropLocal
    case Holding => Abandon
    case JoinDone(_) => Take
    case Dropping(_) => RunDrop
    case Releasing(_) => ReleaseHandle
    case _ => ChildStep(s.child)
  }
}
