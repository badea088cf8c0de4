/** What holds along every run of the takeover protocol, for any number of transport slots. */
module TakeoverRuns {
  import opened AdmissionControl
  import opened Takeover

  lemma {:induction false} ClaimsOnlyAccumulate(states: seq<State>, events: seq<Event>, n: nat, a: nat, b: nat)
    requires IsRun(states, events, n) && a <= b <= |events|
    ensures states[a].changes.id <= states[b].changes.id
  {
    if a < b {
      assert Enabled(states[b - 1], events[b - 1]);
      ClaimsOnlyAccumulate(states, events, n, a, b - 1);
    }
  }

  lemma {:induction false} RunInv(states: seq<State>, events: seq<Event>, n: nat, k: nat)
    requires IsRun(states, events, n) && k <= |events|
    ensures Inv(states[k]) && |states[k].slots| == n
  {
    if k == 0 {
      InitInv(states[0], n);
    } else {
      assert Enabled(states[k - 1], events[k - 1]);
      RunInv(states, events, n, k - 1);
      ClaimsOnlyAccumulate(states, events, n, k, |events|);
      StepInv(states[k - 1], events[k - 1]);
    }
  }

  // ---------------------------------------------------------------- one owner

  /** The admission record is active exactly when one slot sits between claim and release with the
      current generation; that slot is unique, and live generations never repeat. */
  lemma ExactlyOneOwner(states: seq<State>, events: seq<Event>, n: nat, k: nat)
    requires IsRun(states, events, n) && k <= |events|
    ensures states[k].admission.active <==> exists i: nat :: Owns(states[k], i)
    ensures forall i: nat, j: nat :: Owns(states[k], i) && Owns(states[k], j) ==> i == j
    ensures forall i, j | 0 <= i < j < |states[k].slots| ::
              Live(states[k].slots[i]) && Live(states[k].slots[j]) ==>
                states[k].slots[i].generation != states[k].slots[j].generation
  {
    RunInv(states, events, n, k);
  }

  /** A superseded session that ends leaves the admission record alone, so it cannot deactivate the
      session that replaced it; the current session's end does deactivate the record. */
  lemma SessionEndReleasesOnlyItself(states: seq<State>, events: seq<Event>, n: nat, k: nat)
    requires IsRun(states, events, n) && k < |events|
    requires Live(states[k].slots[events[k].slot]) && !Live(states[k + 1].slots[events[k].slot])
    ensures states[k + 1].admission ==
            if Owns(states[k], events[k].slot) then states[k].admission.(active := false)
            else states[k].admission
    ensures states[k + 1].admission.active <==>
            exists i: nat :: i != events[k].slot && Owns(states[k], i)
  {
    assert Enabled(states[k], events[k]);
    RunInv(states, events, n, k);
    var s, i := states[k], events[k].slot;
    ExactlyOneOwner(states, events, n, k);
    if Owns(s, i) {
      assert forall j: nat :: Owns(s, j) ==> j == i;
    }
  }

  /** Every command and every reply begins in the slot that owns the current generation. */
  lemma OnlyTheOwnerActs(states: seq<State>, events: seq<Event>, n: nat, k: nat)
    requires IsRun(states, events, n) && k < |events|
    requires Enabled(states[k], events[k])
    requires StartsCommand(states[k], events[k]) || StartsReply(states[k], events[k])
    ensures states[k].admission.active
    ensures forall i: nat :: Owns(states[k], i) <==> i == events[k].slot
  {
    RunInv(states, events, n, k);
    ExactlyOneOwner(states, events, n, k);
    assert Owns(states[k], events[k].slot);
  }

  /** The watch channel refines the epoch: past setup, an ownership update is unseen exactly when
      the session's generation is stale. */
  lemma WatchRefinesEpoch(states: seq<State>, events: seq<Event>, n: nat, k: nat, i: nat)
    requires IsRun(states, events, n) && k <= |events|
    requires i < |states[k].slots| && Watching(states[k].slots[i])
    ensures states[k].slots[i].seen < states[k].changes.id <==>
            !IsCurrent(states[k].admission, states[k].slots[i].generation)
  {
    RunInv(states, events, n, k);
  }

  // ---------------------------------------------------------------- superseded sessions

  ghost predicate Executes(s: State, generation: nat) {
    exists i: nat :: i < |s.slots| && s.slots[i].Running? && s.slots[i].generation == generation
  }

  predicate PollsGeneration(s: State, e: Event, generation: nat)
    requires Enabled(s, e)
  {
    PollsCommand(e) && s.slots[e.slot].generation == generation
  }

  predicate ActsFor(s: State, e: Event, generation: nat)
    requires Enabled(s, e)
  {
    (StartsCommand(s, e) || StartsReply(s, e)) && s.slots[e.slot].generation == generation
  }

  lemma StaleStep(s: State, e: Event, generation: nat)
    requires Inv(s) && Enabled(s, e) && generation < s.admission.epoch
    ensures !ActsFor(s, e, generation)
    ensures Executes(Apply(s, e), generation) ==>
              Executes(s, generation) && !PollsGeneration(s, e, generation)
    ensures PollsGeneration(s, e, generation) ==> Executes(s, generation)
  {
    var t := Apply(s, e);
    if Executes(t, generation) {
      var w: nat :| w < |t.slots| && t.slots[w].Running? && t.slots[w].generation == generation;
      assert s.slots[w].Running? && s.slots[w].generation == generation;
    }
  }

  /** Command polls of one generation among the events `a..b`. */
  function Polls(states: seq<State>, events: seq<Event>, generation: nat, a: nat, b: nat): nat
    requires a <= b <= |events| < |states|
    requires forall k :: a <= k < b ==> Enabled(states[k], events[k])
    decreases b - a
  {
    if a == b then 0
    else (if PollsGeneration(states[a], events[a], generation) then 1 else 0)
         + Polls(states, events, generation, a + 1, b)
  }

  lemma {:induction false} StalePollsBounded(
      states: seq<State>, events: seq<Event>, n: nat, generation: nat, a: nat, b: nat)
    requires IsRun(states, events, n) && a <= b <= |events|
    requires generation < states[a].admission.epoch
    ensures Polls(states, events, generation, a, b) <= if Executes(states[a], generation) then 1 else 0
    ensures forall k :: a <= k < b ==> !ActsFor(states[k], events[k], generation)
    decreases b - a
  {
    if a < b {
      RunInv(states, events, n, a);
      RunInv(states, events, n, a + 1);
      ClaimsOnlyAccumulate(states, events, n, a, a + 1);
      StaleStep(states[a], events[a], generation);
      StalePollsBounded(states, events, n, generation, a + 1, b);
    }
  }

  /** Once a generation is superseded, its running command is polled at most once more in the whole
      rest of the run, and it never begins another command or reply. */
  lemma SupersededSessionStops(states: seq<State>, events: seq<Event>, n: nat, generation: nat, a: nat, b: nat)
    requires IsRun(states, events, n) && a <= b <= |events|
    requires generation < states[a].admission.epoch
    ensures Polls(states, events, generation, a, b) <= 1
    ensures forall k :: a <= k < b ==> !ActsFor(states[k], events[k], generation)
  {
    StalePollsBounded(states, events, n, generation, a, b);
  }

  // ---------------------------------------------------------------- grants

  lemma {:induction false} HeldUntilListenerReturns(states: seq<State>, events: seq<Event>, n: nat, a: nat, b: nat)
    requires IsRun(states, events, n) && a <= b < |events|
    requires states[a].admission.listenerRequired && IsGrant(states[b], events[b])
    ensures exists c :: a <= c < b && events[c].action.NetworkUp?
    decreases b - a
  {
    assert Enabled(states[a], events[a]);
    if !events[a].action.NetworkUp? {
      HeldUntilListenerReturns(states, events, n, a + 1, b);
    }
  }

  /** After a grant that replaced an active session, no session is admitted until some slot has
      returned to listening. */
  lemma ListenerReturnsBetweenGrants(states: seq<State>, events: seq<Event>, n: nat, a: nat, b: nat)
    requires IsRun(states, events, n) && a < b < |events|
    requires IsGrant(states[a], events[a]) && GrantOf(states[a], events[a]).replacesActive
    requires IsGrant(states[b], events[b])
    ensures exists c :: a < c < b && events[c].action.NetworkUp?
  {
    assert states[a + 1] == Apply(states[a], events[a]);
    HeldUntilListenerReturns(states, events, n, a + 1, b);
  }

  /** Generations granted along a run strictly increase. */
  lemma GrantedGenerationsIncrease(states: seq<State>, events: seq<Event>, n: nat, a: nat, b: nat)
    requires IsRun(states, events, n) && a < b < |events|
    requires IsGrant(states[a], events[a]) && IsGrant(states[b], events[b])
    ensures GrantOf(states[a], events[a]).generation < GrantOf(states[b], events[b]).generation
  {
    RunInv(states, events, n, a);
    RunInv(states, events, n, b);
    assert states[a + 1].changes.id == states[a].changes.id + 1;
    assert states[b + 1].changes.id == states[b].changes.id + 1;
    ClaimsOnlyAccumulate(states, events, n, a + 1, b);
    ClaimsOnlyAccumulate(states, events, n, b + 1, |events|);
  }

  // ---------------------------------------------------------------- no lost wake-up

  /** Own steps a returning slot still needs to reach `listener_ready`. */
  function StepsToListener(p: Phase): nat {
    match p
    case Connecting(_) => 1
    case Closing(_) => 2
    case Running(_, _) => 4
    case Replying(_, _) => 4
    case _ => 3
  }

  lemma ReturningStep(s: State, e: Event, j: nat)
    requires Inv(s) && Enabled(s, e) && Returning(s, j)
    requires Apply(s, e).changes.id < EPOCHS
    ensures e.slot != j ==> Returning(Apply(s, e), j) && Apply(s, e).slots[j] == s.slots[j]
    ensures e.slot == j && !e.action.NetworkUp? ==>
              Returning(Apply(s, e), j) &&
              StepsToListener(Apply(s, e).slots[j]) < StepsToListener(s.slots[j])
  {
  }

  /** A returning slot can always move on without hearing from its peer. */
  lemma ReturningIsEnabled(s: State, j: nat)
    requires Inv(s) && Returning(s, j)
    ensures exists action :: Enabled(s, Event(j, action)) &&
              action !in {RequestArrives, TransportEnds}
  {
    var action :=
      match s.slots[j]
      case Closing(_) => Flushed
      case Connecting(_) => NetworkUp
      case Setup(_) => ReadsAnnouncement
      case Reading(_, _) => OwnershipNotice
      case Running(_, _) => CommandPending
      case Draining(_) => DrainEnds
      case _ => ReplyFails;
    assert Enabled(s, Event(j, action));
  }

  function StepsOf(events: seq<Event>, j: nat): nat {
    if events == [] then 0
    else (if events[0].slot == j then 1 else 0) + StepsOf(events[1..], j)
  }

  lemma StepsOfSlice(events: seq<Event>, a: nat, b: nat, j: nat)
    requires a < b <= |events|
    ensures StepsOf(events[a..b], j) == (if events[a].slot == j then 1 else 0) + StepsOf(events[a + 1..b], j)
  {
    assert events[a..b][1..] == events[a + 1..b];
  }

  /** A waiting claimer either has its wake-up pending, or admission is held and some other slot is
      on its way back to listening, at most four of its own steps away. */
  lemma NoLostWakeUp(states: seq<State>, events: seq<Event>, n: nat, k: nat, i: nat)
    requires IsRun(states, events, n) && k <= |events|
    requires i < |states[k].slots| && states[k].slots[i].Parked?
    ensures Enabled(states[k], Event(i, ListenerNotice)) ||
            (states[k].admission.listenerRequired &&
             exists j: nat :: j != i && Returning(states[k], j) &&
               StepsToListener(states[k].slots[j]) <= 4)
  {
    RunInv(states, events, n, k);
    if states[k].slots[i].seenListener == states[k].listenerChanges.id {
      var j: nat :| Returning(states[k], j);
    }
  }

  lemma BystanderStep(s: State, e: Event, i: nat)
    requires Inv(s) && Enabled(s, e)
    requires i < |s.slots| && s.slots[i].Parked? && !Enabled(s, Event(i, ListenerNotice))
    ensures e.slot != i && Apply(s, e).slots[i] == s.slots[i]
    ensures e.action.NetworkUp? ==> Enabled(Apply(s, e), Event(i, ListenerNotice))
  {
  }

  /** While a claimer waits, every event wakes it or brings the returning slot no further away. */
  lemma WaitingStep(s: State, e: Event, t: State, i: nat, j: nat)
    requires Inv(s) && Enabled(s, e) && t == Apply(s, e) && t.changes.id < EPOCHS
    requires i < |s.slots| && s.slots[i].Parked? && !Enabled(s, Event(i, ListenerNotice))
    requires Returning(s, j)
    ensures i < |t.slots| && t.slots[i] == s.slots[i]
    ensures Enabled(t, Event(i, ListenerNotice)) ||
            (Returning(t, j) &&
             StepsToListener(t.slots[j]) + (if e.slot == j then 1 else 0) <= StepsToListener(s.slots[j]))
  {
    BystanderStep(s, e, i);
    if !(e.slot == j && e.action.NetworkUp?) {
      ReturningStep(s, e, j);
    }
  }

  /** At position `c` slot `i` is still parked as `p` and its wake-up is available. */
  predicate WakeUpReady(states: seq<State>, i: nat, p: Phase, c: nat) {
    c < |states| && Enabled(states[c], Event(i, ListenerNotice)) && states[c].slots[i] == p
  }

  /** Whatever the other tasks do meanwhile, once the returning slot has taken the steps it needs,
      the claimer's wake-up has become available. */
  lemma {:induction false} ParkedClaimerIsWoken(
      states: seq<State>, events: seq<Event>, n: nat, a: nat, b: nat, i: nat, j: nat)
    requires IsRun(states, events, n) && a <= b <= |events|
    requires i < |states[a].slots| && states[a].slots[i].Parked?
    requires Returning(states[a], j)
    requires StepsOf(events[a..b], j) >= StepsToListener(states[a].slots[j])
    ensures exists c: nat :: a <= c <= b && WakeUpReady(states, i, states[a].slots[i], c)
    decreases b - a
  {
    RunInv(states, events, n, a);
    if Enabled(states[a], Event(i, ListenerNotice)) {
      assert WakeUpReady(states, i, states[a].slots[i], a);
    } else if a < b {
      StepsOfSlice(events, a, b, j);
      ClaimsOnlyAccumulate(states, events, n, a + 1, |events|);
      WaitingStep(states[a], events[a], states[a + 1], i, j);
      if Enabled(states[a + 1], Event(i, ListenerNotice)) {
        assert WakeUpReady(states, i, states[a].slots[i], a + 1);
      } else {
        ParkedClaimerIsWoken(states, events, n, a + 1, b, i, j);
      }
    }
  }

  // ---------------------------------------------------------------- receivers

  function Count(slots: seq<Phase>, p: Phase -> bool): nat {
    if slots == [] then 0 else (if p(slots[0]) then 1 else 0) + Count(slots[1..], p)
  }

  lemma {:induction false} CountUpdate(slots: seq<Phase>, i: nat, q: Phase, p: Phase -> bool)
    requires i < |slots|
    ensures Count(slots[i := q], p) + (if p(slots[i]) then 1 else 0)
         == Count(slots, p) + (if p(q) then 1 else 0)
  {
    if i == 0 {
      assert slots[0 := q][1..] == slots[1..];
    } else {
      assert slots[i := q][1..] == slots[1..][i - 1 := q];
      CountUpdate(slots[1..], i - 1, q, p);
    }
  }

  lemma {:induction false} CountLeavesRoom(slots: seq<Phase>, i: nat, p: Phase -> bool)
    requires i <= |slots|
    ensures Count(slots, p) <= |slots|
    ensures i < |slots| && !p(slots[i]) ==> Count(slots, p) < |slots|
  {
    if slots != [] {
      CountLeavesRoom(slots[1..], if i == 0 then 0 else i - 1, p);
      CountLeavesRoom(slots[1..], |slots| - 1, p);
    }
  }

  ghost predicate ReceiversOk(s: State) {
    && s.listenerChanges.receivers == Count(s.slots, (q: Phase) => q.Parked?)
    && s.changes.receivers == Count(s.slots, (q: Phase) => HoldsUpdates(q))
  }

  lemma ReceiversStep(s: State, e: Event)
    requires Enabled(s, e) && ReceiversOk(s)
    ensures ReceiversOk(Apply(s, e))
  {
    var q := Apply(s, e).slots[e.slot];
    var parked, holds := (q: Phase) => q.Parked?, (q: Phase) => HoldsUpdates(q);
    assert Apply(s, e).slots == s.slots[e.slot := q];
    CountUpdate(s.slots, e.slot, q, parked);
    CountUpdate(s.slots, e.slot, q, holds);
  }

  lemma {:induction false} InitCount(n: nat, p: Phase -> bool)
    requires !p(Connecting(false))
    ensures Count(seq(n, i => Connecting(false)), p) == 0
  {
    if n > 0 {
      assert seq(n, i => Connecting(false))[1..] == seq(n - 1, i => Connecting(false));
      InitCount(n - 1, p);
    }
  }

  lemma {:induction false} RunReceivers(states: seq<State>, events: seq<Event>, n: nat, k: nat)
    requires IsRun(states, events, n) && k <= |events|
    ensures ReceiversOk(states[k])
  {
    if k == 0 {
      InitCount(n, (q: Phase) => q.Parked?);
      InitCount(n, (q: Phase) => HoldsUpdates(q));
    } else {
      RunReceivers(states, events, n, k - 1);
      ReceiversStep(states[k - 1], events[k - 1]);
    }
  }

  /** With as many receiver places per channel as slots, subscribing never finds the channel full. */
  lemma ReceiversNeverRunOut(states: seq<State>, events: seq<Event>, n: nat, k: nat)
    requires IsRun(states, events, n) && k < |events|
    ensures events[k].action.HandshakeSucceeds? ==> states[k].listenerChanges.receivers < n
    ensures events[k].action.ReadsAnnouncement? ==> states[k].changes.receivers < n
  {
    assert Enabled(states[k], events[k]);
    RunInv(states, events, n, k);
    RunReceivers(states, events, n, k);
    CountLeavesRoom(states[k].slots, events[k].slot, (q: Phase) => q.Parked?);
    CountLeavesRoom(states[k].slots, events[k].slot, (q: Phase) => HoldsUpdates(q));
  }
}
