/**
The raw tunnel switch: a flag, a one-slot overwriting signal, and the service task that follows
them. Enable and disable calls interleave with the service at its await points.
*/
module RawTunnel {
  import opened Bytes

  datatype Command = Enable | Disable

  /** Where the service task is parked. */
  datatype Phase =
    | Idle                        // disabled, waiting for a command
    | Starting                    // waiting for the network configuration
    | Accepting                   // select of command and `accept`
    | Serving                     // select of command, network read and UART read
    | Forwarding                  // inside a session, in a wait that does not poll the command
    | Releasing(backoff: bool)    // flushing the aborted socket, then pausing when `backoff`
    | Pausing                     // one-second pause after a failed `accept`

  datatype State = State(enabled: bool, signal: Option<Command>, phase: Phase)

  const Initial := State(false, None, Idle)

  datatype ServiceAction =
    | TakeCommand | NetworkUp | ClientAccepted | AcceptFailed
    | DataArrived | ForwardDone | ClientGone | Flushed | PauseEnds

  datatype Event =
    | EnableCall
    | DisableCall
    | Service(action: ServiceAction)

  predicate Enabled(s: State, e: Event) {
    match e
    case EnableCall => true
    case DisableCall => true
    case Service(action) =>
      match action
      // `select` polls the command first, so the other arms need an empty signal.
      case TakeCommand => s.signal.Some? && (s.phase.Idle? || s.phase.Accepting? || s.phase.Serving?)
      case NetworkUp => s.phase.Starting?
      case ClientAccepted => s.phase.Accepting? && s.signal.None?
      case AcceptFailed => s.phase.Accepting? && s.signal.None?
      case DataArrived => s.phase.Serving? && s.signal.None?
      case ForwardDone => s.phase.Forwarding?
      case ClientGone => (s.phase.Serving? && s.signal.None?) || s.phase.Forwarding?
      case Flushed => s.phase.Releasing?
      case PauseEnds => s.phase.Pausing?
  }

  /** The head of the service loop. */
  function LoopTop(s: State): State {
    s.(phase := if s.enabled then Starting else Idle)
  }

  function Apply(s: State, e: Event): State
    requires Enabled(s, e)
  {
    match e
    case EnableCall => if s.enabled then s else s.(enabled := true, signal := Some(Enable))
    case DisableCall => if s.enabled then s.(enabled := false, signal := Some(Disable)) else s
    case Service(action) =>
      match action
      case TakeCommand =>
        var taken := s.(signal := None);
        (match s.phase
         case Idle => LoopTop(taken)
         case Accepting => taken.(phase := Releasing(false))
         case _ => taken.(phase := if s.signal.value.Disable? then Releasing(false) else Serving))
      case NetworkUp => s.(phase := Accepting)
      case ClientAccepted => s.(phase := Serving)
      case AcceptFailed => s.(phase := Releasing(true))
      case DataArrived => s.(phase := Forwarding)
      case ForwardDone => s.(phase := Serving)
      case ClientGone => s.(phase := Releasing(false))
      case Flushed => if s.phase.backoff then s.(phase := Pausing) else LoopTop(s)
      case PauseEnds => LoopTop(s)
  }

  /** A pending signal repeats the flag; with none pending, the phase follows the flag. */
  predicate Agrees(s: State) {
    match s.signal
    case Some(command) => command == if s.enabled then Enable else Disable
    case None =>
      && (s.phase in {Starting, Accepting, Serving, Forwarding} ==> s.enabled)
      && (s.phase.Idle? ==> !s.enabled)
  }

  /** The service has caught up with the switch. */
  predicate Settled(s: State) {
    s.signal.None? && (s.enabled <==> !s.phase.Idle?)
  }

  /** Service steps still needed before the service has caught up. */
  function Backlog(s: State): nat {
    (if s.signal.Some? then 10 else 0) +
    match s.phase
    case Idle => 0
    case Accepting => 1
    case Serving => 1
    case Starting => 2
    case Forwarding => 4
    case Releasing(backoff) => if backoff then 4 else 3
    case Pausing => 3
  }

  ghost predicate IsRun(states: seq<State>, events: seq<Event>) {
    && |states| == |events| + 1
    && (forall k :: 0 <= k < |events| ==>
          Enabled(states[k], events[k]) && states[k + 1] == Apply(states[k], events[k]))
  }

  lemma AgreesStep(s: State, e: Event)
    requires Agrees(s) && Enabled(s, e)
    ensures Agrees(Apply(s, e))
  {
  }

  /** A switch call sets the flag; it signals exactly when the flag changes, and touches nothing else. */
  lemma SwitchCall(s: State, on: bool)
    ensures var t := Apply(s, if on then EnableCall else DisableCall);
            && t.enabled == on && t.phase == s.phase
            && t.signal == if s.enabled == on then s.signal else Some(if on then Enable else Disable)
  {
  }

  /** What the service can do in each phase; a waiting signal goes first. */
  lemma WhatServiceCanDo(s: State, action: ServiceAction)
    ensures Enabled(s, Service(action)) <==>
            match s.phase
            case Idle => action == TakeCommand && s.signal.Some?
            case Starting => action == NetworkUp
            case Accepting => if s.signal.Some? then action == TakeCommand else action in {ClientAccepted, AcceptFailed}
            case Serving => if s.signal.Some? then action == TakeCommand else action in {DataArrived, ClientGone}
            case Forwarding => action in {ForwardDone, ClientGone}
            case Releasing(_) => action == Flushed
            case Pausing => action == PauseEnds
  {
  }

  /** Where each step of the service leads, told by the flag: a client is dropped exactly when it goes or
      the tunnel is found disabled, and a failed accept, and nothing else, is followed by a pause. */
  lemma ServicePhaseAfter(s: State, action: ServiceAction)
    requires Agrees(s) && Enabled(s, Service(action))
    ensures var q := Apply(s, Service(action)).phase;
            && (q.Idle? <==> LoopsAround(s, action) && !s.enabled)
            && (q.Starting? <==> LoopsAround(s, action) && s.enabled)
            && (q.Accepting? <==> action == NetworkUp)
            && (q.Serving? <==> || action in {ClientAccepted, ForwardDone}
                                || (action == TakeCommand && s.phase.Serving? && s.enabled))
            && (q.Forwarding? <==> action == DataArrived)
            && (q == Releasing(true) <==> action == AcceptFailed)
            && (q == Releasing(false) <==>
                  || action == ClientGone
                  || (action == TakeCommand && (s.phase.Accepting? || (s.phase.Serving? && !s.enabled))))
            && (q.Pausing? <==> action == Flushed && s.phase == Releasing(true))
  {
  }

  /** The service comes back to the head of its loop. */
  predicate LoopsAround(s: State, action: ServiceAction) {
    || (action == TakeCommand && s.phase.Idle?)
    || (action == Flushed && s.phase == Releasing(false))
    || action == PauseEnds
  }

  /** Over every interleaving of switch calls and service steps the signal matches the flag, and
      without a signal the service phase does. */
  lemma {:induction false} SwitchAndServiceAgree(states: seq<State>, events: seq<Event>, k: nat)
    requires IsRun(states, events) && states[0] == Initial && k <= |events|
    ensures Agrees(states[k])
  {
    if k > 0 {
      SwitchAndServiceAgree(states, events, k - 1);
      AgreesStep(states[k - 1], events[k - 1]);
    }
  }

  lemma ServiceStep(s: State, e: Event)
    requires Agrees(s) && Enabled(s, e) && e.Service?
    ensures Agrees(Apply(s, e)) && Apply(s, e).enabled == s.enabled
    ensures Settled(s) ==> Settled(Apply(s, e))
    ensures !Settled(s) ==> Settled(Apply(s, e)) || Backlog(Apply(s, e)) < Backlog(s)
  {
  }

  /** An unsettled service always has a step that needs neither a client nor another switch call. */
  lemma UnsettledServiceCanMove(s: State)
    requires Agrees(s) && !Settled(s)
    ensures exists action :: Enabled(s, Service(action)) &&
              action in {TakeCommand, NetworkUp, ForwardDone, Flushed, PauseEnds}
  {
    var action :=
      match s.phase
      case Starting => NetworkUp
      case Forwarding => ForwardDone
      case Releasing(_) => Flushed
      case Pausing => PauseEnds
      case _ => TakeCommand;
    assert Enabled(s, Service(action));
  }

  /** Once toggling stops, at most `Backlog` service steps bring the service into line with the
      flag, and it stays there. */
  lemma {:induction false} ServiceSettles(states: seq<State>, events: seq<Event>, k: nat)
    requires IsRun(states, events) && Agrees(states[0]) && k <= |events|
    requires forall j :: 0 <= j < |events| ==> events[j].Service?
    ensures Agrees(states[k]) && states[k].enabled == states[0].enabled
    ensures Settled(states[k]) || Backlog(states[k]) + k <= Backlog(states[0])
    ensures k > Backlog(states[0]) ==> Settled(states[k])
    ensures forall j :: 0 <= j <= k && Settled(states[j]) ==> Settled(states[k])
  {
    if k > 0 {
      ServiceSettles(states, events, k - 1);
      ServiceStep(states[k - 1], events[k - 1]);
    }
  }

  /** The switch as the firmware keeps it. */
  class RawTunnelControl {
    var enabled: bool
    var signal: Option<Command>

    /** The switch seen together with a service phase. */
    ghost function View(phase: Phase): State
      reads this
    {
      State(enabled, signal, phase)
    }

    constructor ()
      ensures View(Idle) == Initial
    {
      enabled, signal := false, None;
    }

    method EnableTunnel()
      modifies this
      ensures forall phase :: View(phase) == Apply(old(View(phase)), EnableCall)
    {
      var changed := !enabled;
      if changed {
        enabled := true;
        signal := Some(Enable);
      }
    }

    method DisableTunnel()
      modifies this
      ensures forall phase :: View(phase) == Apply(old(View(phase)), DisableCall)
    {
      var changed := enabled;
      if changed {
        enabled := false;
        signal := Some(Disable);
      }
    }
  }
}
