/** What every event of a controller task does, said by what can be observed afterwards. */
module TakeoverSteps {
  import opened AdmissionControl
  import opened Takeover
  import opened TakeoverRuns
  import opened TakeoverLedger

  /** The slot's session has been superseded. */
  predicate IsStale(s: State, i: nat)
    requires i < |s.slots| && Live(s.slots[i])
  {
    s.slots[i].generation != s.admission.epoch
  }

  /** A session ends exactly when its transport ends or fails, when it notices that it was superseded,
      when its drain is over, or when it looks at the epoch and finds another generation there. */
  lemma SessionEndsExactlyWhen(s: State, e: Event)
    requires Inv(s) && Enabled(s, e) && Live(s.slots[e.slot])
    ensures !Live(Apply(s, e).slots[e.slot]) <==>
            || e.action in {TransportEnds, OwnershipNotice, DrainEnds, ReplyFails}
            || (e.action in {ReadsAnnouncement, RequestArrives, CommandReplies} && IsStale(s, e.slot))
    ensures !Live(Apply(s, e).slots[e.slot]) ==> Apply(s, e).slots[e.slot] == Closing(true)
    ensures Live(Apply(s, e).slots[e.slot]) ==>
              Apply(s, e).slots[e.slot].generation == s.slots[e.slot].generation
  {
  }

  /** What a slot's task can be woken by in each phase; a session is told to end exactly when it reads
      and has been superseded. */
  lemma WhatCanHappen(s: State, i: nat, action: Action)
    requires Inv(s) && i < |s.slots| && !s.slots[i].Parked?
    ensures Enabled(s, Event(i, action)) <==>
            match s.slots[i]
            case Connecting(_) => action == NetworkUp
            case Listening => action in {Accepts, AcceptFails}
            case Backoff => action == BackoffEnds
            case Handshaking => action in {HandshakeSucceeds, HandshakeFails}
            case Setup(_) => action == ReadsAnnouncement
            case Reading(_, _) =>
              action in {RequestArrives, TransportEnds} || (action == OwnershipNotice && IsStale(s, i))
            case Running(_, _) => action in {CommandPending, CommandReplies, CommandSilent}
            case Draining(_) => action == DrainEnds
            case Replying(_, _) => action in {ReplySent, ReplyFails}
            case _ => action == Flushed
  {
  }

  /** Which events lead a live slot into which phase; staleness is told by the epoch alone. */
  lemma SessionPhaseAfter(s: State, e: Event)
    requires Inv(s) && Enabled(s, e) && Live(s.slots[e.slot])
    ensures var q, stale := Apply(s, e).slots[e.slot], IsStale(s, e.slot);
            && (q.Reading? <==> (e.action == ReadsAnnouncement && !stale) || e.action in {CommandSilent, ReplySent})
            && (q.Running? <==> e.action in {RequestArrives, CommandPending} && !stale)
            && (q.Draining? <==> e.action == CommandPending && stale)
            && (q.Replying? <==> e.action == CommandReplies && !stale)
            && !q.Setup?
  {
  }

  /** The same for a slot without a session. */
  lemma IdlePhaseAfter(s: State, e: Event)
    requires Inv(s) && Enabled(s, e) && !Live(s.slots[e.slot])
    ensures var q, claims := Apply(s, e).slots[e.slot], e.action in {HandshakeSucceeds, ListenerNotice};
            && (q.Listening? <==> e.action == NetworkUp)
            && (q.Backoff? <==> e.action == AcceptFails)
            && (q.Handshaking? <==> e.action == Accepts)
            && (q.Closing? <==> e.action == HandshakeFails)
            && (q.Connecting? <==> e.action in {BackoffEnds, Flushed})
            && (q.Parked? <==> claims && s.admission.listenerRequired)
            && (q.Parked? ==> q.seenListener == if e.action == ListenerNotice then s.listenerChanges.id else 0)
            && (q.Setup? <==> claims && !s.admission.listenerRequired)
  {
  }

  /** A claimer that is woken and held back again is not woken a second time by the same change. */
  lemma WokenOncePerChange(s: State, i: nat)
    requires Enabled(s, Event(i, ListenerNotice)) && s.admission.listenerRequired
    ensures var t := Apply(s, Event(i, ListenerNotice));
            t.slots[i].Parked? && !Enabled(t, Event(i, ListenerNotice))
  {
  }

  /** Only the task that moves changes its phase. */
  lemma OthersStay(s: State, e: Event, j: nat)
    requires Enabled(s, e) && j < |s.slots| && j != e.slot
    ensures |Apply(s, e).slots| == |s.slots| && Apply(s, e).slots[j] == s.slots[j]
  {
  }

  /** A listener change is announced exactly when some slot listens while a claim is held back, and
      exactly listening clears the requirement. */
  lemma AnnouncedExactlyWhenRequired(s: State, e: Event)
    requires Enabled(s, e)
    ensures Apply(s, e).listenerChanges.id
         == s.listenerChanges.id + One(e.action == NetworkUp && s.admission.listenerRequired)
    ensures s.admission.listenerRequired ==>
              (Apply(s, e).admission.listenerRequired <==> e.action != NetworkUp)
    ensures !s.admission.listenerRequired ==>
              (Apply(s, e).admission.listenerRequired <==> Replaces(s, e))
  {
  }

  /** When the owner's client goes, or cannot be answered, no session is active any more. */
  lemma OwnerLeaves(states: seq<State>, events: seq<Event>, n: nat, k: nat)
    requires IsRun(states, events, n) && k < |events|
    requires Owns(states[k], events[k].slot) && events[k].action in {TransportEnds, ReplyFails}
    ensures !states[k + 1].admission.active && states[k + 1].slots[events[k].slot] == Closing(true)
  {
    assert Enabled(states[k], events[k]);
    RunInv(states, events, n, k);
    SessionEndsExactlyWhen(states[k], events[k]);
    SessionEndReleasesOnlyItself(states, events, n, k);
    ExactlyOneOwner(states, events, n, k);
  }
}
