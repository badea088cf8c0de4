/**
A run in which a superseded session waits to drain the UART behind an idle raw client. The first
session disables the tunnel and at once starts a command; before the tunnel service is polled again
the second session, whose first request came with its upgrade, takes over and enables the tunnel. The
overwritten signal makes the raw client start its wait anew and take the receiver again.
*/
module StuckDrain {
  import opened Bytes
  import opened AdmissionControl
  import opened FirmwareTasks
  import opened DrainProgress
  import T = Takeover
  import U = UartLocks
  import R = RawTunnel

  function Last(states: seq<State>): State
    requires states != []
  {
    states[|states| - 1]
  }

  /** One more event, to a state named by what its components are. */
  lemma Grow(states: seq<State>, events: seq<Event>, e: Event, t: State)
    returns (states': seq<State>, events': seq<Event>)
    requires IsRun(states, events) && Enabled(Last(states), e)
    requires t == Apply(Last(states), e) && t.control.changes.id < EPOCHS
    ensures IsRun(states', events') && states <= states' && Last(states') == t
  {
    states', events' := states + [t], events + [e];
    forall k | 0 <= k < |events'|
      ensures Enabled(states'[k], events'[k]) && states'[k + 1] == Apply(states'[k], events'[k])
    {
      if k < |events| {
        assert Enabled(states[k], events[k]);
      }
    }
  }

  function Control(epoch: nat, listenerRequired: bool, receivers: nat, first: T.Phase, second: T.Phase): T.State {
    T.State(Admission(epoch, epoch > 0, listenerRequired), T.Watch(epoch, epoch, receivers), T.Watch(0, 0, 0),
            [first, second])
  }

  function Locks(rx: Option<nat>, first: U.Phase, client: U.Phase): U.State {
    U.State(rx, None, 0, [first, U.Quiet, client])
  }

  const Idle := Locks(None, U.Quiet, U.RawAway)
  const Heard := Locks(Some(2), U.Quiet, U.RawReading)

  // The controller states passed through, in order.
  const c0 := Control(0, false, 0, T.Connecting(false), T.Connecting(false))
  const c1 := Control(0, false, 0, T.Listening, T.Connecting(false))
  const c2 := Control(0, false, 0, T.Listening, T.Listening)
  const c3 := Control(0, false, 0, T.Listening, T.Handshaking)
  const c4 := Control(0, false, 0, T.Handshaking, T.Handshaking)
  const c5 := Control(1, false, 0, T.Setup(1), T.Handshaking)
  const c6 := Control(1, false, 1, T.Reading(1, 1), T.Handshaking)

  lemma SlotsListen() returns (states: seq<State>, events: seq<Event>)
    ensures IsRun(states, events) && Init(states[0], 2) && Last(states) == State(c2, Idle, R.Initial)
  {
    assert c0.slots == seq(2, i => T.Connecting(false));
    assert seq(2, i => U.Quiet) + [U.RawAway] == [U.Quiet, U.Quiet, U.RawAway];
    states, events := [State(c0, Idle, R.Initial)], [];
    states, events := Grow(states, events, Session(T.Event(0, T.NetworkUp)), State(c1, Idle, R.Initial));
    states, events := Grow(states, events, Session(T.Event(1, T.NetworkUp)), State(c2, Idle, R.Initial));
  }

  /** Two clients are being upgraded. */
  lemma ClientsArrive(states: seq<State>, events: seq<Event>)
    returns (states': seq<State>, events': seq<Event>)
    requires IsRun(states, events) && Last(states) == State(c2, Idle, R.Initial)
    ensures IsRun(states', events') && states <= states' && Last(states') == State(c4, Idle, R.Initial)
  {
    states', events' := Grow(states, events, Session(T.Event(1, T.Accepts)), State(c3, Idle, R.Initial));
    states', events' := Grow(states', events', Session(T.Event(0, T.Accepts)), State(c4, Idle, R.Initial));
  }

  /** The first of them gets its session. */
  lemma FirstSession(states: seq<State>, events: seq<Event>)
    returns (states': seq<State>, events': seq<Event>)
    requires IsRun(states, events) && Last(states) == State(c4, Idle, R.Initial)
    ensures IsRun(states', events') && states <= states' && Last(states') == State(c6, Idle, R.Initial)
  {
    states', events' := Grow(states, events, Session(T.Event(0, T.HandshakeSucceeds)), State(c5, Idle, R.Initial));
    states', events' := Grow(states', events', Session(T.Event(0, T.ReadsAnnouncement)), State(c6, Idle, R.Initial));
  }

  /** A session at work on a request: reading it, running it or replying. */
  function At(s: State, slot: nat, p: T.Phase): State
    requires slot < Slots(s)
  {
    s.(control := T.Put(s.control, slot, p))
  }

  /** A session reads a request that switches the tunnel. */
  lemma SwitchIsCalled(states: seq<State>, events: seq<Event>, s: State, slot: nat, on: bool, tunnel: R.State)
    returns (states': seq<State>, events': seq<Event>)
    requires IsRun(states, events) && Last(states) == s && s.control.changes.id < EPOCHS
    requires slot < Slots(s) && slot < |s.locks.tasks| && s.control.slots[slot].Reading?
    requires s.control.slots[slot].generation == s.control.admission.epoch && s.tunnel.enabled != on
    requires tunnel == R.State(on, Some(if on then R.Enable else R.Disable), s.tunnel.phase)
    ensures IsRun(states', events') && states <= states'
    ensures var p := s.control.slots[slot];
            Last(states') == At(s, slot, T.Running(p.generation, p.seen)).(tunnel := tunnel)
  {
    var p := s.control.slots[slot];
    var running := At(s, slot, T.Running(p.generation, p.seen));
    states', events' := Grow(states, events, Session(T.Event(slot, T.RequestArrives)), running);
    states', events' := Grow(states', events', Switch(on), running.(tunnel := tunnel));
  }

  /** The request is answered, and the session reads again. */
  lemma RequestIsAnswered(states: seq<State>, events: seq<Event>, s: State, slot: nat, p: T.Phase)
    returns (states': seq<State>, events': seq<Event>)
    requires IsRun(states, events) && s.control.changes.id < EPOCHS
    requires slot < Slots(s) && slot < |s.locks.tasks| && s.locks.tasks[slot].Quiet?
    requires p.Reading? && s.control.slots[slot] == p && p.generation == s.control.admission.epoch
    requires Last(states) == At(s, slot, T.Running(p.generation, p.seen))
    ensures IsRun(states', events') && states <= states' && Last(states') == s
  {
    var replying := At(s, slot, T.Replying(p.generation, p.seen));
    states', events' := Grow(states, events, Session(T.Event(slot, T.CommandReplies)), replying);
    assert replying.control.slots[slot := p] == s.control.slots;
    states', events' := Grow(states', events', Session(T.Event(slot, T.ReplySent)), s);
  }

  lemma Switches(states: seq<State>, events: seq<Event>, slot: nat, on: bool)
    returns (states': seq<State>, events': seq<Event>)
    requires IsRun(states, events) && slot < Slots(Last(states)) && slot < |Last(states).locks.tasks|
    requires Last(states).control.changes.id < EPOCHS && Last(states).tunnel.enabled != on
    requires Last(states).control.slots[slot].Reading? && Last(states).locks.tasks[slot].Quiet?
    requires Last(states).control.slots[slot].generation == Last(states).control.admission.epoch
    ensures IsRun(states', events') && states <= states'
    ensures Last(states') == Last(states).(tunnel :=
              R.State(on, Some(if on then R.Enable else R.Disable), Last(states).tunnel.phase))
  {
    var s := Last(states);
    var tunnel := R.State(on, Some(if on then R.Enable else R.Disable), s.tunnel.phase);
    states', events' := SwitchIsCalled(states, events, s, slot, on, tunnel);
    states', events' := RequestIsAnswered(states', events', s.(tunnel := tunnel), slot, s.control.slots[slot]);
  }

  const Switched := R.State(true, Some(R.Enable), R.Idle)
  const Starting := R.State(true, None, R.Starting)
  const Accepting := R.State(true, None, R.Accepting)
  const Settled := R.State(true, None, R.Serving)

  lemma TunnelOpens(states: seq<State>, events: seq<Event>)
    returns (states': seq<State>, events': seq<Event>)
    requires IsRun(states, events) && Last(states) == State(c6, Idle, Switched)
    ensures IsRun(states', events') && states <= states' && Last(states') == State(c6, Idle, Accepting)
  {
    states', events' := Grow(states, events, Tunnel(R.TakeCommand, None), State(c6, Idle, Starting));
    states', events' := Grow(states', events', Tunnel(R.NetworkUp, None), State(c6, Idle, Accepting));
  }

  /** The raw client connects and waits for UART bytes. */
  lemma ClientConnects(states: seq<State>, events: seq<Event>)
    returns (states': seq<State>, events': seq<Event>)
    requires IsRun(states, events) && Last(states) == State(c6, Idle, Accepting)
    ensures IsRun(states', events') && states <= states' && Last(states') == State(c6, Heard, Settled)
  {
    var wants := Locks(None, U.Quiet, U.RawWantsRx);
    states', events' :=
      Grow(states, events, Tunnel(R.ClientAccepted, Some(U.ClientJoins)), State(c6, wants, Settled));
    states', events' := Grow(states', events', Client(U.TakeRx), State(c6, Heard, Settled));
  }

  const c7 := Control(1, false, 1, T.Running(1, 1), T.Handshaking)
  const c8 := Control(2, true, 1, T.Running(1, 1), T.Setup(2))
  const c9 := Control(2, true, 2, T.Running(1, 1), T.Reading(2, 2))
  const Waiting := Locks(Some(2), U.CommandWantsRx, U.RawReading)
  const Disabled := R.State(false, Some(R.Disable), R.Serving)
  const Reenabled := R.State(true, Some(R.Enable), R.Serving)

  /** The first session starts a command, which waits for the receiver; the second takes over. */
  lemma CommandWaits(states: seq<State>, events: seq<Event>)
    returns (states': seq<State>, events': seq<Event>)
    requires IsRun(states, events) && Last(states) == State(c6, Heard, Disabled)
    ensures IsRun(states', events') && states <= states' && Last(states') == State(c7, Waiting, Disabled)
  {
    states', events' := Grow(states, events, Session(T.Event(0, T.RequestArrives)), State(c7, Heard, Disabled));
    states', events' := Grow(states', events', Command(0, U.BeginCommand), State(c7, Waiting, Disabled));
  }

  lemma SecondSession(states: seq<State>, events: seq<Event>)
    returns (states': seq<State>, events': seq<Event>)
    requires IsRun(states, events) && Last(states) == State(c7, Waiting, Disabled)
    ensures IsRun(states', events') && states <= states' && Last(states') == State(c9, Waiting, Disabled)
  {
    states', events' :=
      Grow(states, events, Session(T.Event(1, T.HandshakeSucceeds)), State(c8, Waiting, Disabled));
    states', events' :=
      Grow(states', events', Session(T.Event(1, T.ReadsAnnouncement)), State(c9, Waiting, Disabled));
  }

  /** The raw client takes the receiver anew. */
  lemma ClientTakesReceiverAgain(states: seq<State>, events: seq<Event>)
    returns (states': seq<State>, events': seq<Event>)
    requires IsRun(states, events) && Last(states) == State(c9, Waiting, Reenabled)
    ensures IsRun(states', events') && states <= states' && Last(states') == State(c9, Waiting, Settled)
  {
    var between := Locks(None, U.CommandWantsRx, U.RawWantsRx);
    states', events' :=
      Grow(states, events, Tunnel(R.TakeCommand, Some(U.Reselect)), State(c9, between, Settled));
    states', events' := Grow(states', events', Client(U.TakeRx), State(c9, Waiting, Settled));
  }

  /** The superseded command is cancelled behind it. */
  lemma CommandIsCancelled(states: seq<State>, events: seq<Event>)
    returns (states': seq<State>, events': seq<Event>)
    requires IsRun(states, events) && Last(states) == State(c9, Waiting, Settled)
    ensures IsRun(states', events') && states <= states'
    ensures Stuck(Last(states')) && Blocked(Last(states'), 0)
  {
    states', events' :=
      Grow(states, events, Session(T.Event(0, T.CommandPending)),
           State(Control(2, true, 2, T.Draining(1), T.Reading(2, 2)),
                 Locks(Some(2), U.DrainWantsRx, U.RawReading), Settled));
  }

  /** So the stuck state is reached by a run from the start. */
  lemma DrainCanBeStuck() returns (states: seq<State>, events: seq<Event>)
    ensures IsRun(states, events) && Init(states[0], 2)
    ensures Stuck(Last(states)) && Blocked(Last(states), 0)
  {
    states, events := SlotsListen();
    states, events := ClientsArrive(states, events);
    states, events := FirstSession(states, events);
    states, events := Switches(states, events, 0, true);
    states, events := TunnelOpens(states, events);
    states, events := ClientConnects(states, events);
    states, events := Switches(states, events, 0, false);
    states, events := CommandWaits(states, events);
    states, events := SecondSession(states, events);
    states, events := Switches(states, events, 1, true);
    states, events := ClientTakesReceiverAgain(states, events);
    states, events := CommandIsCancelled(states, events);
  }
}
