/**
A run of the takeover protocol that leaves no slot listening. Every task in it is suspended only
where the firmware can really wait for its peer, so the run does not depend on the executor leaving
a woken task aside. A reply waits when the peer has stopped reading and earlier output, such as
pongs, already fills the 4096-byte send buffer.
*/
module TakeoverCrowding {
  import opened AdmissionControl
  import opened Takeover
  import opened TakeoverRuns

  function Last(states: seq<State>): State
    requires states != []
  {
    states[|states| - 1]
  }

  lemma Grow(states: seq<State>, events: seq<Event>, n: nat, e: Event)
    returns (states': seq<State>, events': seq<Event>)
    requires IsRun(states, events, n) && Enabled(Last(states), e)
    requires Apply(Last(states), e).changes.id < EPOCHS
    ensures IsRun(states', events', n)
    ensures states' == states + [Apply(Last(states), e)] && events' == events + [e]
  {
    states', events' := states + [Apply(Last(states), e)], events + [e];
    forall k | 0 <= k < |events'|
      ensures Enabled(states'[k], events'[k]) && states'[k + 1] == Apply(states'[k], events'[k])
    {
      if k < |events| {
        assert Enabled(states[k], events[k]);
      }
    }
  }

  /** Slots below `k` are sending a reply their peer does not take, the others are listening. A task
      that is writing a reply does not look at ownership changes. */
  ghost predicate Filled(s: State, n: nat, k: nat) {
    && |s.slots| == n && s.changes.id == k
    && (forall i: nat :: i < n ==> s.slots[i] == if i < k then Replying(i + 1, i + 1) else Listening)
  }

  predicate AllLive(s: State, k: nat) {
    k <= |s.slots| && forall i :: 0 <= i < k ==> Live(s.slots[i])
  }

  /** Before anyone connects, all slots come to listen. */
  lemma {:induction false} AllListen(n: nat, k: nat) returns (states: seq<State>, events: seq<Event>)
    requires k <= n
    ensures IsRun(states, events, n) && |Last(states).slots| == n && Last(states).changes.id == 0
    ensures forall i: nat :: i < n ==> Last(states).slots[i] == if i < k then Listening else Connecting(false)
  {
    if k == 0 {
      states, events := [State(Fresh, Watch(0, 0, 0), Watch(0, 0, 0), seq(n, i => Connecting(false)))], [];
    } else {
      states, events := AllListen(n, k - 1);
      states, events := Grow(states, events, n, Event(k - 1, NetworkUp));
    }
  }

  /** A listening slot whose next client fails the upgrade comes back and clears the requirement. */
  lemma ComesBack(states: seq<State>, events: seq<Event>, n: nat, i: nat)
    returns (states': seq<State>, events': seq<Event>)
    requires IsRun(states, events, n) && i < n < EPOCHS && Filled(Last(states), n, i)
    ensures IsRun(states', events', n) && Filled(Last(states'), n, i)
    ensures !Last(states').admission.listenerRequired
  {
    states', events' := Grow(states, events, n, Event(i, Accepts));
    states', events' := Grow(states', events', n, Event(i, HandshakeFails));
    states', events' := Grow(states', events', n, Event(i, Flushed));
    states', events' := Grow(states', events', n, Event(i, NetworkUp));
  }

  /** The next client is admitted at position `at`, past every session so far. */
  lemma Joins(states: seq<State>, events: seq<Event>, n: nat, i: nat)
    returns (states': seq<State>, events': seq<Event>, at: nat)
    requires IsRun(states, events, n) && i < n < EPOCHS && Filled(Last(states), n, i)
    requires !Last(states).admission.listenerRequired
    ensures IsRun(states', events', n) && |Last(states').slots| == n && Last(states').changes.id == i + 1
    ensures Last(states').slots == Last(states).slots[i := Setup(i + 1)]
    ensures at == |events| + 1 < |events'| && IsGrant(states'[at], events'[at]) && AllLive(states'[at], i)
  {
    RunInv(states, events, n, |events|);
    states', events' := Grow(states, events, n, Event(i, Accepts));
    at := |events'|;
    states', events' := Grow(states', events', n, Event(i, HandshakeSucceeds));
  }

  /** Its first request is executed and the reply gets stuck. */
  lemma Serves(states: seq<State>, events: seq<Event>, n: nat, i: nat)
    returns (states': seq<State>, events': seq<Event>)
    requires IsRun(states, events, n) && i < |Last(states).slots| && i + 1 < EPOCHS
    requires Last(states).slots[i] == Setup(i + 1) && Last(states).changes.id == i + 1
    ensures IsRun(states', events', n) && states <= states' && events <= events'
    ensures Last(states').changes.id == i + 1
    ensures Last(states').slots == Last(states).slots[i := Replying(i + 1, i + 1)]
  {
    RunInv(states, events, n, |events|);
    states', events' := Grow(states, events, n, Event(i, ReadsAnnouncement));
    states', events' := Grow(states', events', n, Event(i, RequestArrives));
    states', events' := Grow(states', events', n, Event(i, CommandReplies));
  }

  /** What is not promised: the slot that returns to listening need not be the superseded one. With
      any number of slots there is a run that admits a session in every one of them while all its
      predecessors are still in theirs, which leaves no listener at all. */
  lemma {:induction false} EverySlotCanBeBusy(n: nat, k: nat)
    returns (states: seq<State>, events: seq<Event>, at: nat)
    requires k <= n < EPOCHS
    ensures IsRun(states, events, n) && Filled(Last(states), n, k)
    ensures k > 0 ==> at < |events| && IsGrant(states[at], events[at]) && AllLive(states[at], k - 1)
  {
    if k == 0 {
      states, events := AllListen(n, n);
      at := 0;
    } else {
      states, events, at := EverySlotCanBeBusy(n, k - 1);
      states, events := ComesBack(states, events, n, k - 1);
      states, events, at := Joins(states, events, n, k - 1);
      states, events := Serves(states, events, n, k - 1);
    }
  }
}
