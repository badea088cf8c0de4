/** Bookkeeping of superseded sessions over whole runs of the takeover protocol. */
module TakeoverLedger {
  import opened AdmissionControl
  import opened Takeover
  import opened TakeoverRuns

  predicate IsSuperseded(p: Phase, epoch: nat) {
    Live(p) && p.generation < epoch
  }

  predicate IsCurrentSession(p: Phase, epoch: nat) {
    Live(p) && p.generation == epoch
  }

  function One(b: bool): nat {
    if b then 1 else 0
  }

  /** Slots still inside a session of an older generation. */
  function Superseded(slots: seq<Phase>, epoch: nat): nat {
    if slots == [] then 0 else One(IsSuperseded(slots[0], epoch)) + Superseded(slots[1..], epoch)
  }

  function Current(slots: seq<Phase>, epoch: nat): nat {
    if slots == [] then 0 else One(IsCurrentSession(slots[0], epoch)) + Current(slots[1..], epoch)
  }

  lemma {:induction false} SupersededUpdate(slots: seq<Phase>, i: nat, q: Phase, epoch: nat)
    requires i < |slots|
    ensures Superseded(slots[i := q], epoch) + One(IsSuperseded(slots[i], epoch))
         == Superseded(slots, epoch) + One(IsSuperseded(q, epoch))
  {
    if i == 0 {
      assert slots[0 := q][1..] == slots[1..];
    } else {
      assert slots[i := q][1..] == slots[1..][i - 1 := q];
      SupersededUpdate(slots[1..], i - 1, q, epoch);
    }
  }

  /** When the epoch moves on, the sessions of the old epoch join the superseded ones. */
  lemma {:induction false} EpochMoves(slots: seq<Phase>, epoch: nat)
    ensures Superseded(slots, epoch + 1) == Superseded(slots, epoch) + Current(slots, epoch)
  {
    if slots != [] {
      EpochMoves(slots[1..], epoch);
    }
  }

  lemma {:induction false} NoneCurrent(slots: seq<Phase>, epoch: nat)
    requires forall i :: 0 <= i < |slots| ==> !IsCurrentSession(slots[i], epoch)
    ensures Current(slots, epoch) == 0
  {
    if slots != [] {
      NoneCurrent(slots[1..], epoch);
    }
  }

  lemma {:induction false} OneCurrent(slots: seq<Phase>, epoch: nat, w: nat)
    requires w < |slots|
    requires forall i :: 0 <= i < |slots| ==> (IsCurrentSession(slots[i], epoch) <==> i == w)
    ensures Current(slots, epoch) == 1
  {
    assert IsCurrentSession(slots[0], epoch) <==> 0 == w;
    assert forall i :: 0 <= i < |slots[1..]| ==> slots[1..][i] == slots[i + 1];
    if w == 0 {
      NoneCurrent(slots[1..], epoch);
    } else {
      OneCurrent(slots[1..], epoch, w - 1);
    }
  }

  lemma {:induction false} SupersededSlots(slots: seq<Phase>, epoch: nat)
    ensures Superseded(slots, epoch) == 0 <==> forall i :: 0 <= i < |slots| ==> !IsSuperseded(slots[i], epoch)
  {
    if slots != [] {
      SupersededSlots(slots[1..], epoch);
      assert forall i :: 0 <= i < |slots[1..]| ==> slots[1..][i] == slots[i + 1];
      assert forall i :: 1 <= i < |slots| ==> slots[i] == slots[1..][i - 1];
    }
  }

  lemma CurrentIsActive(s: State)
    requires Inv(s)
    ensures Current(s.slots, s.admission.epoch) == One(s.admission.active)
  {
    var epoch := s.admission.epoch;
    if s.admission.active {
      var w: nat :| Owns(s, w);
      assert forall i :: 0 <= i < |s.slots| ==> (IsCurrentSession(s.slots[i], epoch) <==> i == w);
      OneCurrent(s.slots, epoch, w);
    } else {
      forall i: nat | i < |s.slots|
        ensures !IsCurrentSession(s.slots[i], epoch)
      {
        assert !Owns(s, i);
      }
      NoneCurrent(s.slots, epoch);
    }
  }

  // ---------------------------------------------------------------- one step

  /** The event admits a session while another is active. */
  predicate Replaces(s: State, e: Event) {
    IsGrant(s, e) && GrantOf(s, e).replacesActive
  }

  /** The event ends a session that had been superseded. */
  predicate Retires(s: State, e: Event) {
    && Enabled(s, e) && IsSuperseded(s.slots[e.slot], s.admission.epoch)
    && !Live(Apply(s, e).slots[e.slot])
  }

  lemma GrantLedger(s: State, e: Event)
    requires Inv(s) && IsGrant(s, e) && Apply(s, e).changes.id < EPOCHS
    ensures Superseded(Apply(s, e).slots, Apply(s, e).admission.epoch)
         == Superseded(s.slots, s.admission.epoch) + One(s.admission.active)
  {
    var epoch := s.admission.epoch;
    assert Apply(s, e).slots == s.slots[e.slot := Setup(epoch + 1)];
    assert Apply(s, e).admission.epoch == epoch + 1;
    SupersededUpdate(s.slots, e.slot, Setup(epoch + 1), epoch + 1);
    EpochMoves(s.slots, epoch);
    CurrentIsActive(s);
  }

  lemma EpochStays(s: State, e: Event)
    requires Inv(s) && Enabled(s, e) && !IsGrant(s, e)
    ensures Apply(s, e).admission.epoch == s.admission.epoch
    ensures Apply(s, e).slots == s.slots[e.slot := Apply(s, e).slots[e.slot]]
    ensures IsSuperseded(Apply(s, e).slots[e.slot], s.admission.epoch) <==>
            IsSuperseded(s.slots[e.slot], s.admission.epoch) && Live(Apply(s, e).slots[e.slot])
  {
  }

  /** Each event changes the number of superseded sessions only by what it replaces or retires. */
  lemma StepLedger(s: State, e: Event)
    requires Inv(s) && Enabled(s, e) && Apply(s, e).changes.id < EPOCHS
    ensures Superseded(Apply(s, e).slots, Apply(s, e).admission.epoch) + One(Retires(s, e))
         == Superseded(s.slots, s.admission.epoch) + One(Replaces(s, e))
  {
    if IsGrant(s, e) {
      GrantLedger(s, e);
    } else {
      EpochStays(s, e);
      SupersededUpdate(s.slots, e.slot, Apply(s, e).slots[e.slot], s.admission.epoch);
    }
  }

  // ---------------------------------------------------------------- whole runs

  /** Replacing grants among the first `k` events. */
  function Replacements(states: seq<State>, events: seq<Event>, k: nat): nat
    requires k <= |events| < |states|
  {
    if k == 0 then 0
    else Replacements(states, events, k - 1) + One(Replaces(states[k - 1], events[k - 1]))
  }

  /** Superseded sessions that ended among the first `k` events. */
  function Retirements(states: seq<State>, events: seq<Event>, k: nat): nat
    requires k <= |events| < |states|
  {
    if k == 0 then 0
    else Retirements(states, events, k - 1) + One(Retires(states[k - 1], events[k - 1]))
  }

  /** Conservation: the superseded sessions still running are exactly the replacements so far minus
      the superseded sessions that have ended. A slot returning to listening does not enter. */
  lemma {:induction false} SupersededSessionsBalance(states: seq<State>, events: seq<Event>, n: nat, k: nat)
    requires IsRun(states, events, n) && k <= |events|
    ensures Superseded(states[k].slots, states[k].admission.epoch) + Retirements(states, events, k)
         == Replacements(states, events, k)
  {
    if k == 0 {
      SupersededSlots(states[0].slots, 0);
    } else {
      assert Enabled(states[k - 1], events[k - 1]);
      SupersededSessionsBalance(states, events, n, k - 1);
      RunInv(states, events, n, k - 1);
      ClaimsOnlyAccumulate(states, events, n, k, |events|);
      StepLedger(states[k - 1], events[k - 1]);
    }
  }

  /** At any point of a run, so at any admission, no predecessor is left in its session if and only
      if every replacement so far has been matched by the end of a superseded session. */
  lemma NoSupersededSessionExactlyWhenRetired(states: seq<State>, events: seq<Event>, n: nat, k: nat)
    requires IsRun(states, events, n) && k <= |events|
    ensures (forall i :: 0 <= i < |states[k].slots| ==>
               !IsSuperseded(states[k].slots[i], states[k].admission.epoch)) <==>
            Retirements(states, events, k) == Replacements(states, events, k)
  {
    SupersededSessionsBalance(states, events, n, k);
    SupersededSlots(states[k].slots, states[k].admission.epoch);
  }

  // ---------------------------------------------------------------- sockets given back

  /** The session is over, but its socket is not listening again. */
  predicate IsGivingBack(p: Phase) {
    (p.Closing? || p.Connecting?) && p.fromSession
  }

  /** An earlier session of this slot has not returned its transport to listening mode. */
  predicate IsStillReturning(p: Phase, epoch: nat) {
    IsSuperseded(p, epoch) || IsGivingBack(p)
  }

  /** The event ends a session, current or superseded. */
  predicate Ends(s: State, e: Event) {
    Enabled(s, e) && Live(s.slots[e.slot]) && !Live(Apply(s, e).slots[e.slot])
  }

  /** The event is a `listener_ready` call that follows a session of the same slot. */
  predicate Relistens(s: State, e: Event) {
    Enabled(s, e) && e.action.NetworkUp? && s.slots[e.slot].fromSession
  }

  lemma SlotMoves(s: State, e: Event)
    requires Inv(s) && Enabled(s, e) && Apply(s, e).changes.id < EPOCHS
    ensures Apply(s, e).slots == s.slots[e.slot := Apply(s, e).slots[e.slot]]
    ensures Apply(s, e).admission.epoch == s.admission.epoch + One(IsGrant(s, e))
    ensures var p, q := s.slots[e.slot], Apply(s, e).slots[e.slot];
            && One(Live(q)) + One(Ends(s, e)) == One(Live(p)) + One(IsGrant(s, e))
            && One(IsGivingBack(q)) + One(Relistens(s, e)) == One(IsGivingBack(p)) + One(Ends(s, e))
  {
  }

  /** Sessions begin with a grant, then give their socket back, and are done when it listens. */
  lemma StepOfSessions(s: State, e: Event)
    requires Inv(s) && Enabled(s, e) && Apply(s, e).changes.id < EPOCHS
    ensures var t := Apply(s, e);
            t.admission.epoch + Count(s.slots, Live) + Count(s.slots, IsGivingBack)
            == s.admission.epoch + Count(t.slots, Live) + Count(t.slots, IsGivingBack) + One(Relistens(s, e))
  {
    SlotMoves(s, e);
    CountUpdate(s.slots, e.slot, Apply(s, e).slots[e.slot], Live);
    CountUpdate(s.slots, e.slot, Apply(s, e).slots[e.slot], IsGivingBack);
  }

  /** `listener_ready` calls that followed a session among the first `k` events. */
  function Relistenings(states: seq<State>, events: seq<Event>, k: nat): nat
    requires k <= |events| < |states|
  {
    if k == 0 then 0
    else Relistenings(states, events, k - 1) + One(Relistens(states[k - 1], events[k - 1]))
  }

  /** Conservation of sessions: every one ever granted is still running, is giving its socket back,
      or has seen it listen again. */
  lemma {:induction false} SessionsBalance(states: seq<State>, events: seq<Event>, n: nat, k: nat)
    requires IsRun(states, events, n) && k <= |events|
    ensures states[k].admission.epoch
         == Count(states[k].slots, Live) + Count(states[k].slots, IsGivingBack) + Relistenings(states, events, k)
  {
    if k == 0 {
      InitCount(n, Live);
      InitCount(n, IsGivingBack);
    } else {
      assert Enabled(states[k - 1], events[k - 1]);
      SessionsBalance(states, events, n, k - 1);
      RunInv(states, events, n, k - 1);
      ClaimsOnlyAccumulate(states, events, n, k, |events|);
      StepOfSessions(states[k - 1], events[k - 1]);
    }
  }

  lemma {:induction false} LiveSplits(slots: seq<Phase>, epoch: nat)
    requires forall i :: 0 <= i < |slots| && Live(slots[i]) ==> slots[i].generation <= epoch
    ensures Count(slots, Live) == Superseded(slots, epoch) + Current(slots, epoch)
  {
    if slots != [] {
      assert forall i :: 0 <= i < |slots[1..]| ==> slots[1..][i] == slots[i + 1];
      LiveSplits(slots[1..], epoch);
    }
  }

  lemma {:induction false} CountZero(slots: seq<Phase>, p: Phase -> bool)
    ensures Count(slots, p) == 0 <==> forall i :: 0 <= i < |slots| ==> !p(slots[i])
  {
    if slots != [] {
      CountZero(slots[1..], p);
      assert forall i :: 0 <= i < |slots[1..]| ==> slots[1..][i] == slots[i + 1];
      assert forall i :: 1 <= i < |slots| ==> slots[i] == slots[1..][i - 1];
    }
  }

  /** No predecessor is still returning its transport to listening mode, inside its session or behind
      it, if and only if every session granted so far except the active one has been followed by a
      `listener_ready` call of its own slot. This holds at any point of a run, so at any grant. */
  lemma NoPredecessorReturningExactlyWhen(states: seq<State>, events: seq<Event>, n: nat, k: nat)
    requires IsRun(states, events, n) && k <= |events|
    ensures (forall i :: 0 <= i < |states[k].slots| ==>
               !IsStillReturning(states[k].slots[i], states[k].admission.epoch)) <==>
            Relistenings(states, events, k) + One(states[k].admission.active) == states[k].admission.epoch
  {
    var slots, epoch := states[k].slots, states[k].admission.epoch;
    RunInv(states, events, n, k);
    SessionsBalance(states, events, n, k);
    LiveSplits(slots, epoch);
    CurrentIsActive(states[k]);
    SupersededSlots(slots, epoch);
    CountZero(slots, IsGivingBack);
  }

  // ---------------------------------------------------------------- slots taken

  lemma {:induction false} CountAll(slots: seq<Phase>, p: Phase -> bool, q: Phase -> bool)
    requires forall x :: q(x) ==> !p(x)
    ensures Count(slots, p) + Count(slots, q) <= |slots|
    ensures Count(slots, p) + Count(slots, q) == |slots| <==>
            forall i :: 0 <= i < |slots| ==> p(slots[i]) || q(slots[i])
  {
    if slots != [] {
      CountAll(slots[1..], p, q);
      assert forall i :: 0 <= i < |slots[1..]| ==> slots[1..][i] == slots[i + 1];
      assert forall i :: 1 <= i < |slots| ==> slots[i] == slots[1..][i - 1];
    }
  }

  /** The slots in a session are the current one, if any, and the superseded ones; so which further
      slots complete all `n` is a matter of counting. */
  lemma SessionsAndOthersFillUp(states: seq<State>, events: seq<Event>, n: nat, k: nat, others: Phase -> bool)
    requires IsRun(states, events, n) && k <= |events|
    requires forall p :: others(p) ==> !Live(p)
    ensures (forall i :: 0 <= i < |states[k].slots| ==>
               Live(states[k].slots[i]) || others(states[k].slots[i])) <==>
            Replacements(states, events, k) + One(states[k].admission.active) + Count(states[k].slots, others)
            == n + Retirements(states, events, k)
    ensures Replacements(states, events, k) + One(states[k].admission.active) + Count(states[k].slots, others)
            <= n + Retirements(states, events, k)
  {
    var slots, epoch := states[k].slots, states[k].admission.epoch;
    RunInv(states, events, n, k);
    SupersededSessionsBalance(states, events, n, k);
    LiveSplits(slots, epoch);
    CurrentIsActive(states[k]);
    CountAll(slots, Live, others);
  }

  /** A client is connected, but its session has not begun. */
  predicate IsClaiming(p: Phase) {
    p.Handshaking? || p.Parked?
  }

  /** Neither in a session nor listening. */
  predicate IsAway(p: Phase) {
    !Live(p) && !p.Listening?
  }

  /** Every slot is taken by a client if and only if the replacements so far, less the superseded
      sessions ended, with the active session and the clients not admitted yet, number `n`. */
  lemma EverySlotTakenExactlyWhen(states: seq<State>, events: seq<Event>, n: nat, k: nat)
    requires IsRun(states, events, n) && k <= |events|
    ensures (forall i :: 0 <= i < |states[k].slots| ==>
               Live(states[k].slots[i]) || IsClaiming(states[k].slots[i])) <==>
            Replacements(states, events, k) - Retirements(states, events, k)
            + One(states[k].admission.active) + Count(states[k].slots, IsClaiming) == n
  {
    SessionsAndOthersFillUp(states, events, n, k, IsClaiming);
  }

  /** A listener is preserved if and only if the same sum, with all slots between sockets in place of
      the clients not admitted yet, stays below `n`. */
  lemma ListenerLeftExactlyWhen(states: seq<State>, events: seq<Event>, n: nat, k: nat)
    requires IsRun(states, events, n) && k <= |events|
    ensures (exists i :: 0 <= i < |states[k].slots| && states[k].slots[i].Listening?) <==>
            Replacements(states, events, k) - Retirements(states, events, k)
            + One(states[k].admission.active) + Count(states[k].slots, IsAway) < n
  {
    var slots := states[k].slots;
    SessionsAndOthersFillUp(states, events, n, k, IsAway);
    assert forall i :: 0 <= i < |slots| ==> (slots[i].Listening? <==> !(Live(slots[i]) || IsAway(slots[i])));
  }
}
