/**
The firmware's tasks together: controller slots, the UART mutexes and the raw tunnel. One event is a
step of one task and moves every component that step touches.
*/
module FirmwareTasks {
  import opened Bytes
  import opened AdmissionControl
  import T = Takeover
  import U = UartLocks
  import R = RawTunnel

  /** The raw client is the last task of the lock table, behind the slots. */
  datatype State = State(control: T.State, locks: U.State, tunnel: R.State)

  datatype Event =
    | Session(step: T.Event)                                       // a step of a slot's task
    | Command(slot: nat, action: U.Action)                         // a UART step inside a command or drain
    | Client(action: U.Action)                                     // a lock or UART step of the raw client
    | Tunnel(service: R.ServiceAction, access: Option<U.Action>)   // a step of the tunnel service
    | Switch(on: bool)                                             // enable or disable, by some session

  function Slots(s: State): nat {
    |s.control.slots|
  }

  // ---------------------------------------------------------------- one event, three components

  /** A command is waiting for a lock or using the UART. */
  predicate IsCommand(p: U.Phase) {
    p.CommandWantsRx? || p.CommandWantsTx? || p.Commanding?
  }

  function ControlEvent(e: Event): Option<T.Event> {
    if e.Session? then Some(e.step) else None
  }

  /** A polled command that finds itself superseded is dropped, and with it its locks. */
  predicate IsCancelled(s: State, e: T.Event) {
    && T.Enabled(s.control, e) && e.action.CommandPending?
    && s.control.slots[e.slot].seen < s.control.changes.id
  }

  function LockEvent(s: State, e: Event): Option<U.Event> {
    match e
    case Session(step) =>
      if IsCancelled(s, step) then Some(U.Event(step.slot, U.CancelCommand))
      else if step.action.DrainEnds? then Some(U.Event(step.slot, U.FinishDrain))
      else None
    case Command(slot, action) => Some(U.Event(slot, action))
    case Client(action) => Some(U.Event(Slots(s), action))
    case Tunnel(_, access) => if access.Some? then Some(U.Event(Slots(s), access.value)) else None
    case Switch(_) => None
  }

  function TunnelEvent(e: Event): Option<R.Event> {
    match e
    case Tunnel(action, _) => Some(R.Service(action))
    case Switch(on) => Some(if on then R.EnableCall else R.DisableCall)
    case _ => None
  }

  /** What a service step means for the raw client's use of the UART. */
  predicate Accesses(s: State, action: R.ServiceAction, access: Option<U.Action>) {
    match action
    case TakeCommand =>
      access == if !s.tunnel.phase.Serving? || s.tunnel.signal.None? then None
                else Some(if s.tunnel.signal.value.Disable? then U.ClientLeaves else U.Reselect)
    case ClientAccepted => access == Some(U.ClientJoins)
    case DataArrived => access == Some(U.UartBytes) || access == Some(U.NetworkBytes)
    case ForwardDone => access == Some(U.RelayDone) || access == Some(U.WriteDone)
    case ClientGone => access == Some(U.ClientLeaves)
    case _ => access == None
  }

  predicate Guard(s: State, e: Event) {
    match e
    case Session(step) =>
      step.slot < Slots(s) && step.slot < |s.locks.tasks| &&
      var p := s.locks.tasks[step.slot];
      (match step.action
       case CommandPending => IsCommand(p)
       case CommandReplies => p.Quiet?
       case CommandSilent => p.Quiet?
       case DrainEnds => p.DrainHoldsRx?
       case _ => true)
    case Command(slot, action) =>
      && slot < Slots(s)
      && action in {U.BeginCommand, U.TakeRx, U.TakeTx, U.WritePacket, U.ReadStatus, U.DrainAfterError,
                    U.FinishCommand, U.DrainBytes}
      // While the tunnel is enabled, servo commands are refused before they touch the UART.
      && (action == U.BeginCommand ==> s.control.slots[slot].Running? && !s.tunnel.enabled)
    case Client(action) => action in {U.TakeRx, U.TakeTx, U.WriteBytes}
    case Tunnel(action, access) => Accesses(s, action, access)
    case Switch(_) => true
  }

  /** A servo command reaches the UART only while the tunnel is disabled, and only in a running request;
      a request is answered only when its command is done. */
  lemma CommandsNeedTheTunnelOff(s: State, e: Event)
    requires Enabled(s, e)
    ensures e.Command? && e.action == U.BeginCommand ==> !s.tunnel.enabled && s.control.slots[e.slot].Running?
    ensures e.Session? && e.step.action in {T.CommandReplies, T.CommandSilent} ==>
              !IsCommand(s.locks.tasks[e.step.slot])
  {
  }

  predicate Enabled(s: State, e: Event) {
    && Guard(s, e)
    && (ControlEvent(e).Some? ==> T.Enabled(s.control, ControlEvent(e).value))
    && (LockEvent(s, e).Some? ==> U.Enabled(s.locks, LockEvent(s, e).value))
    && (TunnelEvent(e).Some? ==> R.Enabled(s.tunnel, TunnelEvent(e).value))
  }

  function Apply(s: State, e: Event): State
    requires Enabled(s, e)
  {
    State(if ControlEvent(e).Some? then T.Apply(s.control, ControlEvent(e).value) else s.control,
          if LockEvent(s, e).Some? then U.Apply(s.locks, LockEvent(s, e).value) else s.locks,
          if TunnelEvent(e).Some? then R.Apply(s.tunnel, TunnelEvent(e).value) else s.tunnel)
  }

  predicate Init(s: State, n: nat) {
    && T.Init(s.control, n) && s.tunnel == R.Initial
    && s.locks == U.State(None, None, 0, seq(n, i => U.Quiet) + [U.RawAway])
  }

  ghost predicate IsRun(states: seq<State>, events: seq<Event>) {
    && |states| == |events| + 1
    && (forall k :: 0 <= k < |events| ==>
          Enabled(states[k], events[k]) && states[k + 1] == Apply(states[k], events[k]))
    && (forall k :: 0 <= k < |states| ==> states[k].control.changes.id < EPOCHS)
  }

  // ---------------------------------------------------------------- invariant

  predicate SlotFits(p: T.Phase, q: U.Phase) {
    if p.Running? then q.Quiet? || IsCommand(q)
    else if p.Draining? then q.DrainWantsRx? || q.DrainHoldsRx?
    else q.Quiet?
  }

  predicate ClientFits(p: R.Phase, q: U.Phase) {
    match p
    case Serving => q.RawWantsRx? || q.RawReading?
    case Forwarding => q.RawRelaying? || q.RawWantsTx? || q.RawWriting?
    case _ => q.RawAway?
  }

  ghost predicate Fits(s: State) {
    && |s.locks.tasks| == Slots(s) + 1
    && (forall i :: 0 <= i < Slots(s) ==> SlotFits(s.control.slots[i], s.locks.tasks[i]))
    && ClientFits(s.tunnel.phase, s.locks.tasks[Slots(s)])
  }

  ghost predicate Inv(s: State) {
    T.Inv(s.control) && U.Inv(s.locks) && R.Agrees(s.tunnel) && Fits(s)
  }

  lemma ControlStep(c: T.State, e: T.Event)
    requires T.Enabled(c, e)
    ensures T.Apply(c, e).slots == c.slots[e.slot := T.Apply(c, e).slots[e.slot]]
  {
  }

  lemma SessionFits(s: State, e: Event)
    requires Fits(s) && Enabled(s, e) && e.Session?
    ensures Fits(Apply(s, e))
  {
    ControlStep(s.control, e.step);
    var p, q := s.control.slots[e.step.slot], s.locks.tasks[e.step.slot];
    assert SlotFits(p, q);
    assert SlotFits(Apply(s, e).control.slots[e.step.slot], Apply(s, e).locks.tasks[e.step.slot]);
  }

  lemma CommandFits(s: State, e: Event)
    requires Fits(s) && Enabled(s, e) && e.Command?
    ensures Fits(Apply(s, e))
  {
    assert SlotFits(s.control.slots[e.slot], s.locks.tasks[e.slot]);
    assert SlotFits(s.control.slots[e.slot], Apply(s, e).locks.tasks[e.slot]);
  }

  lemma ClientStepFits(s: State, e: Event)
    requires Fits(s) && Enabled(s, e) && (e.Client? || e.Tunnel? || e.Switch?)
    ensures Fits(Apply(s, e))
  {
    assert ClientFits(Apply(s, e).tunnel.phase, Apply(s, e).locks.tasks[Slots(s)]);
  }

  /** Every event keeps the invariants of all three parts and the way they fit together. */
  lemma StepInv(s: State, e: Event)
    requires Inv(s) && Enabled(s, e) && Apply(s, e).control.changes.id < EPOCHS
    ensures Inv(Apply(s, e)) && Slots(Apply(s, e)) == Slots(s)
  {
    if ControlEvent(e).Some? {
      T.StepInv(s.control, ControlEvent(e).value);
      ControlStep(s.control, ControlEvent(e).value);
    }
    if LockEvent(s, e).Some? {
      U.StepInv(s.locks, LockEvent(s, e).value);
    }
    if TunnelEvent(e).Some? {
      R.AgreesStep(s.tunnel, TunnelEvent(e).value);
    }
    if e.Session? {
      SessionFits(s, e);
    } else if e.Command? {
      CommandFits(s, e);
    } else {
      ClientStepFits(s, e);
    }
  }

  lemma InitInv(s: State, n: nat)
    requires Init(s, n)
    ensures Inv(s)
  {
    T.InitInv(s.control, n);
  }

  lemma {:induction false} RunInv(states: seq<State>, events: seq<Event>, n: nat, k: nat)
    requires IsRun(states, events) && Init(states[0], n) && k <= |events|
    ensures Inv(states[k])
  {
    if k == 0 {
      InitInv(states[0], n);
    } else {
      RunInv(states, events, n, k - 1);
      assert states[k] == Apply(states[k - 1], events[k - 1]) && states[k].control.changes.id < EPOCHS;
      StepInv(states[k - 1], events[k - 1]);
    }
  }
}
