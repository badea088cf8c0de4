/**
What can keep a superseded session from draining the UART, and so from returning to listening, when
all tasks of the firmware run together.
*/
module DrainProgress {
  import opened Bytes
  import opened AdmissionControl
  import opened FirmwareTasks
  import T = Takeover
  import U = UartLocks
  import R = RawTunnel

  // ---------------------------------------------------------------- what a returning slot waits for

  /** The slot's session is superseded and cancelled, and someone else has the receiver. */
  predicate Blocked(s: State, j: nat) {
    && j < Slots(s) && j < |s.locks.tasks| && s.control.slots[j].Draining?
    && s.locks.tasks[j].DrainWantsRx? && s.locks.rx.Some?
  }

  /** A step of the slot that needs nothing from its peer. */
  predicate IsOwnStep(e: Event, j: nat) {
    || (e.Session? && e.step.slot == j && e.step.action !in {T.RequestArrives, T.TransportEnds})
    || (e.Command? && e.slot == j)
  }

  /** With the locks taken into account, a returning slot can move on by itself unless it waits to
      drain the UART while someone else has the receiver. */
  lemma ReturningSlotMovesUnlessBlocked(s: State, j: nat)
    requires Inv(s) && T.Returning(s.control, j)
    ensures Blocked(s, j) || exists e :: IsOwnStep(e, j) && Enabled(s, e)
  {
    assert SlotFits(s.control.slots[j], s.locks.tasks[j]);
    if !Blocked(s, j) {
      var e := OwnStep(s.control.slots[j], s.locks.tasks[j], j);
      if e.Command? {
        assert Enabled(s, e);
      } else {
        SessionStepIsEnabled(s, e, j);
      }
    }
  }

  /** The step a returning slot takes next. */
  function OwnStep(p: T.Phase, q: U.Phase, j: nat): Event {
    match p
    case Closing(_) => Session(T.Event(j, T.Flushed))
    case Connecting(_) => Session(T.Event(j, T.NetworkUp))
    case Setup(_) => Session(T.Event(j, T.ReadsAnnouncement))
    case Reading(_, _) => Session(T.Event(j, T.OwnershipNotice))
    case Running(_, _) => Session(T.Event(j, if q.Quiet? then T.CommandReplies else T.CommandPending))
    case Draining(_) => if q.DrainWantsRx? then Command(j, U.TakeRx) else Session(T.Event(j, T.DrainEnds))
    case _ => Session(T.Event(j, T.ReplyFails))
  }

  lemma SessionStepIsEnabled(s: State, e: Event, j: nat)
    requires Inv(s) && T.Returning(s.control, j) && SlotFits(s.control.slots[j], s.locks.tasks[j])
    requires e == OwnStep(s.control.slots[j], s.locks.tasks[j], j) && e.Session?
    ensures Enabled(s, e)
  {
  }

  // ---------------------------------------------------------------- stuck behind the raw client

  /** The raw client has the receiver, is reading, and no switch command is waiting for it. */
  predicate Stuck(s: State) {
    s.locks.rx == Some(Slots(s)) && s.tunnel.signal.None?
  }

  /** Bytes for or from the raw client, its leaving, or another switch call. */
  predicate ComesFromOutside(e: Event) {
    e.Switch? || (e.Tunnel? && e.service in {R.DataArrived, R.ClientGone})
  }

  /** Nothing the firmware's tasks do by themselves ends it, and a slot waiting to drain goes on
      waiting. */
  lemma StuckStep(s: State, e: Event, j: nat)
    requires Inv(s) && Enabled(s, e) && !ComesFromOutside(e) && Stuck(s) && Blocked(s, j)
    ensures Slots(Apply(s, e)) == Slots(s) && Stuck(Apply(s, e)) && Blocked(Apply(s, e), j)
  {
    ReaderHolds(s);
    if e.Session? {
      ControlStep(s.control, e.step);
      assert SlotFits(s.control.slots[e.step.slot], s.locks.tasks[e.step.slot]);
    }
  }

  lemma ReaderHolds(s: State)
    requires Inv(s) && s.locks.rx == Some(Slots(s))
    ensures s.tunnel.phase.Serving? && s.locks.tasks[Slots(s)].RawReading?
    ensures forall i :: 0 <= i < Slots(s) ==> !U.HoldsRx(s.locks.tasks[i])
  {
    assert U.HoldsRx(s.locks.tasks[Slots(s)]);
  }

  lemma {:induction false} StuckStays(states: seq<State>, events: seq<Event>, k: nat, j: nat)
    requires IsRun(states, events) && Inv(states[0]) && k <= |events|
    requires forall m :: 0 <= m < k ==> !ComesFromOutside(events[m])
    requires Stuck(states[0]) && Blocked(states[0], j)
    ensures Inv(states[k]) && Stuck(states[k]) && Blocked(states[k], j)
  {
    if k > 0 {
      StuckStays(states, events, k - 1, j);
      assert states[k] == Apply(states[k - 1], events[k - 1]) && states[k].control.changes.id < EPOCHS;
      StepInv(states[k - 1], events[k - 1]);
      StuckStep(states[k - 1], events[k - 1], j);
    }
  }

  // ---------------------------------------------------------------- otherwise a bounded wait

  /** Steps with which the raw client can still delay a command that wants the transmitter. */
  function TransmitWork(p: U.Phase): nat {
    match p
    case RawWantsTx => U.COPY_BUFFER_SIZE + 2
    case RawWriting(left) => left + 1
    case _ => 0
  }

  /** Steps until the receiver is given up, at most. */
  function Work(s: State): nat
    requires |s.locks.tasks| == Slots(s) + 1
  {
    match s.locks.rx
    case None => 0
    case Some(h) =>
      if h >= Slots(s) then 1
      else
        match s.locks.tasks[h]
        case Commanding(_, left) => left + 1
        case DrainHoldsRx(left) => left + 1
        case _ => U.COMMAND_ACCESSES + 2 + TransmitWork(s.locks.tasks[Slots(s)])
  }

  /** A step of the task that has the receiver, or of the raw client while it delays that task. */
  predicate IsDue(s: State, e: Event)
    requires |s.locks.tasks| == Slots(s) + 1
  {
    match s.locks.rx
    case None => false
    case Some(h) =>
      if h >= Slots(s) then e.Tunnel? && e.service.TakeCommand?
      else
        || (e.Command? && e.slot == h)
        || (e.Session? && e.step == T.Event(h, T.DrainEnds))
        || (s.locks.tasks[h].CommandWantsTx? && TransmitWork(s.locks.tasks[Slots(s)]) > 0 &&
            (e.Client? || (e.Tunnel? && e.service.ForwardDone?)))
  }

  /** Whatever the firmware's tasks do, the receiver is given up or the same task keeps it with no
      more work than before, and with less after a due step. */
  lemma HolderStep(s: State, e: Event)
    requires Inv(s) && Enabled(s, e) && !ComesFromOutside(e)
    requires s.locks.rx.Some? && !Stuck(s)
    ensures |Apply(s, e).locks.tasks| == Slots(Apply(s, e)) + 1 == Slots(s) + 1
    ensures MovesOn(s, e, Apply(s, e))
  {
    if e.Session? {
      HolderAndSession(s, e);
    } else if e.Command? {
      HolderAndCommand(s, e);
    } else if e.Client? {
      HolderAndClient(s, e);
    } else {
      HolderAndTunnel(s, e);
    }
  }

  ghost predicate MovesOn(s: State, e: Event, t: State)
    requires |s.locks.tasks| == Slots(s) + 1 && |t.locks.tasks| == Slots(t) + 1
  {
    || t.locks.rx == None
    || (t.locks.rx == s.locks.rx && !Stuck(t) && Work(t) + (if IsDue(s, e) then 1 else 0) <= Work(s))
  }

  lemma HolderAndSession(s: State, e: Event)
    requires Inv(s) && Enabled(s, e) && s.locks.rx.Some? && !Stuck(s) && e.Session?
    ensures |Apply(s, e).locks.tasks| == Slots(Apply(s, e)) + 1 == Slots(s) + 1
    ensures MovesOn(s, e, Apply(s, e))
  {
    assert U.HoldsRx(s.locks.tasks[s.locks.rx.value]);
    ControlStep(s.control, e.step);
    assert SlotFits(s.control.slots[e.step.slot], s.locks.tasks[e.step.slot]);
  }

  lemma HolderAndCommand(s: State, e: Event)
    requires Inv(s) && Enabled(s, e) && s.locks.rx.Some? && !Stuck(s) && e.Command?
    ensures |Apply(s, e).locks.tasks| == Slots(Apply(s, e)) + 1 == Slots(s) + 1
    ensures MovesOn(s, e, Apply(s, e))
  {
    assert U.HoldsRx(s.locks.tasks[s.locks.rx.value]);
    assert SlotFits(s.control.slots[e.slot], s.locks.tasks[e.slot]);
  }

  lemma HolderAndClient(s: State, e: Event)
    requires Inv(s) && Enabled(s, e) && s.locks.rx.Some? && !Stuck(s) && e.Client?
    ensures |Apply(s, e).locks.tasks| == Slots(Apply(s, e)) + 1 == Slots(s) + 1
    ensures MovesOn(s, e, Apply(s, e))
  {
    assert U.HoldsRx(s.locks.tasks[s.locks.rx.value]);
  }

  lemma HolderAndTunnel(s: State, e: Event)
    requires Inv(s) && Enabled(s, e) && s.locks.rx.Some? && !Stuck(s) && e.Tunnel? && !ComesFromOutside(e)
    ensures |Apply(s, e).locks.tasks| == Slots(Apply(s, e)) + 1 == Slots(s) + 1
    ensures MovesOn(s, e, Apply(s, e))
  {
    assert U.HoldsRx(s.locks.tasks[s.locks.rx.value]);
  }

  /** And a due step is always there to be taken. */
  lemma DueStepExists(s: State) returns (e: Event)
    requires Inv(s) && s.locks.rx.Some? && !Stuck(s)
    ensures Enabled(s, e) && !ComesFromOutside(e) && IsDue(s, e)
    ensures Apply(s, e).control.changes.id == s.control.changes.id
  {
    var h := s.locks.rx.value;
    assert U.HoldsRx(s.locks.tasks[h]);
    if h == Slots(s) {
      e := Tunnel(R.TakeCommand, Some(if s.tunnel.signal.value.Disable? then U.ClientLeaves else U.Reselect));
      ReaderTakesCommand(s, e);
    } else {
      assert SlotFits(s.control.slots[h], s.locks.tasks[h]);
      if s.locks.tasks[h].Commanding? {
        e := Command(h, U.FinishCommand);
      } else if s.locks.tasks[h].DrainHoldsRx? {
        e := Session(T.Event(h, T.DrainEnds));
      } else if s.locks.tx.None? {
        e := Command(h, U.TakeTx);
      } else {
        WriterHolds(s);
        e := Tunnel(R.ForwardDone, Some(U.WriteDone));
      }
    }
  }

  lemma ReaderTakesCommand(s: State, e: Event)
    requires Inv(s) && s.locks.rx == Some(Slots(s)) && s.tunnel.signal.Some?
    requires e == Tunnel(R.TakeCommand, Some(if s.tunnel.signal.value.Disable? then U.ClientLeaves else U.Reselect))
    ensures Enabled(s, e) && IsDue(s, e) && Apply(s, e).control == s.control
  {
    ReaderHolds(s);
  }

  lemma SlotsTransmitInCommands(s: State)
    requires Inv(s)
    ensures forall i: nat :: i < Slots(s) && U.HoldsTx(s.locks.tasks[i]) ==> s.locks.rx == Some(i)
  {
    forall i: nat | i < Slots(s) && U.HoldsTx(s.locks.tasks[i])
      ensures s.locks.rx == Some(i)
    {
      assert SlotFits(s.control.slots[i], s.locks.tasks[i]);
    }
  }

  /** Behind a command that has the receiver only the raw client can have the transmitter. */
  lemma WriterHolds(s: State)
    requires Inv(s) && s.locks.rx.Some? && s.locks.rx.value < Slots(s) && s.locks.tx.Some?
    requires s.locks.tasks[s.locks.rx.value].CommandWantsTx?
    ensures s.locks.tx == Some(Slots(s)) && s.locks.tasks[Slots(s)].RawWriting? && s.tunnel.phase.Forwarding?
  {
    SlotsTransmitInCommands(s);
    assert U.HoldsTx(s.locks.tasks[s.locks.tx.value]);
  }

  /** Due steps among the first `k` events. */
  function DueSteps(states: seq<State>, events: seq<Event>, k: nat): nat
    requires k <= |events| < |states|
    requires forall m :: 0 <= m < k ==> |states[m].locks.tasks| == Slots(states[m]) + 1
  {
    if k == 0 then 0
    else DueSteps(states, events, k - 1) + if IsDue(states[k - 1], events[k - 1]) then 1 else 0
  }

  ghost predicate Sound(states: seq<State>) {
    forall k :: 0 <= k < |states| ==> Inv(states[k])
  }

  lemma {:induction false} ReceiverIsGivenUp(states: seq<State>, events: seq<Event>, k: nat)
    requires IsRun(states, events) && Sound(states) && k <= |events|
    requires forall m :: 0 <= m < k ==> !ComesFromOutside(events[m])
    requires states[0].locks.rx.Some? && !Stuck(states[0])
    ensures || (exists c: nat :: c <= k && states[c].locks.rx == None)
            || (states[k].locks.rx == states[0].locks.rx && !Stuck(states[k]) &&
                Work(states[k]) + DueSteps(states, events, k) <= Work(states[0]))
  {
    if k > 0 {
      ReceiverIsGivenUp(states, events, k - 1);
      assert states[k] == Apply(states[k - 1], events[k - 1]);
      if !(exists c: nat :: c <= k - 1 && states[c].locks.rx == None) {
        HolderStep(states[k - 1], events[k - 1]);
      }
    }
  }

  lemma WorkIsBounded(s: State)
    requires Inv(s)
    ensures Work(s) <= U.COMMAND_ACCESSES + U.COPY_BUFFER_SIZE + 4
  {
    assert forall i: nat :: i < |s.locks.tasks| ==> U.WithinLimits(s.locks.tasks[i]);
  }

  // ---------------------------------------------------------------- exactly

  /** A run from `s`, without anything from outside, at whose end the receiver is free. */
  ghost predicate FreesReceiver(s: State, states: seq<State>, events: seq<Event>) {
    && IsRun(states, events) && states[0] == s && states[|events|].locks.rx == None
    && (forall m :: 0 <= m < |events| ==> !ComesFromOutside(events[m]))
  }

  lemma {:induction false} FreeingRun(s: State) returns (states: seq<State>, events: seq<Event>)
    requires Inv(s) && s.control.changes.id < EPOCHS && s.locks.rx.Some? && !Stuck(s)
    ensures FreesReceiver(s, states, events) && |events| <= Work(s)
    decreases Work(s)
  {
    var e := DueStepExists(s);
    var t := Apply(s, e);
    HolderStep(s, e);
    StepInv(s, e);
    if t.locks.rx == None {
      states, events := [s, t], [e];
      WorkIsPositive(s);
    } else {
      var later, rest := FreeingRun(t);
      states, events := [s] + later, [e] + rest;
      Prepend(s, e, later, rest);
    }
  }

  lemma WorkIsPositive(s: State)
    requires |s.locks.tasks| == Slots(s) + 1 && s.locks.rx.Some?
    ensures Work(s) > 0
  {
  }

  lemma Prepend(s: State, e: Event, later: seq<State>, rest: seq<Event>)
    requires Enabled(s, e) && !ComesFromOutside(e) && s.control.changes.id < EPOCHS
    requires FreesReceiver(Apply(s, e), later, rest)
    ensures FreesReceiver(s, [s] + later, [e] + rest)
  {
    var states, events := [s] + later, [e] + rest;
    forall k | 0 <= k < |events|
      ensures Enabled(states[k], events[k]) && states[k + 1] == Apply(states[k], events[k])
    {
      if k > 0 {
        assert Enabled(later[k - 1], rest[k - 1]);
      }
    }
  }

  /** A slot that waits to drain the UART can be let through by the firmware's own tasks if and only
      if it is not the raw client that has the receiver, with no switch command waiting for it. If
      not stuck, the wait is bounded; if stuck, only the outside can end it. */
  lemma HeldUpExactlyWhenStuck(s: State, j: nat)
    requires Inv(s) && s.control.changes.id < EPOCHS && Blocked(s, j)
    ensures !Stuck(s) <==> exists states, events :: FreesReceiver(s, states, events)
    ensures !Stuck(s) ==> Work(s) <= U.COMMAND_ACCESSES + U.COPY_BUFFER_SIZE + 4
    ensures Stuck(s) ==> s.tunnel.enabled && s.tunnel.phase.Serving? && s.locks.tasks[Slots(s)].RawReading?
  {
    WorkIsBounded(s);
    if Stuck(s) {
      ReaderHolds(s);
      forall states, events | FreesReceiver(s, states, events)
        ensures false
      {
        StuckStays(states, events, |events|, j);
      }
    } else {
      var states, events := FreeingRun(s);
    }
  }
}
