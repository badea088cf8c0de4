/**
The controller takeover protocol: any number of identical controller tasks share one admission
record and two watch channels. The executor is cooperative, so one event takes a task from the
`await` it is parked at to the next one, and events of different tasks interleave freely.
*/
module Takeover {
  import opened AdmissionControl

  /** A watch channel: the last value sent, a counter bumped by each send, live receivers. */
  datatype Watch = Watch(id: nat, value: nat, receivers: nat)

  /** Where a controller task is parked. A receiver that has seen everything holds the channel's
      id; a fresh receiver holds 0. `fromSession` is history the firmware does not keep: whether the
      socket being given back had carried a session. */
  datatype Phase =
    | Connecting(fromSession: bool)              // waiting for the network configuration
    | Listening                                  // waiting in `accept`
    | Backoff                                    // one-second pause after a failed `accept`
    | Handshaking                                // upgrading the WebSocket
    | Parked(seenListener: nat)                  // in `claim`, waiting for a listener change
    | Setup(generation: nat)                     // claimed, announcement not read yet
    | Reading(generation: nat, seen: nat)        // waiting for a request or an ownership change
    | Running(generation: nat, seen: nat)        // waiting for the command or an ownership change
    | Draining(generation: nat)                  // command cancelled, draining the UART
    | Replying(generation: nat, seen: nat)       // writing the response
    | Closing(fromSession: bool)                 // released, flushing the aborted socket

  datatype State = State(
    admission: Admission, changes: Watch, listenerChanges: Watch, slots: seq<Phase>)

  datatype Action =
    | NetworkUp | AcceptFails | BackoffEnds | Accepts
    | HandshakeFails | HandshakeSucceeds | ListenerNotice
    | ReadsAnnouncement | RequestArrives | TransportEnds | OwnershipNotice
    | CommandPending | CommandReplies | CommandSilent | DrainEnds
    | ReplySent | ReplyFails | Flushed

  datatype Event = Event(slot: nat, action: Action)

  function Send(w: Watch, value: nat): Watch {
    w.(id := w.id + 1, value := value)
  }

  function Subscribe(w: Watch): Watch {
    w.(receivers := w.receivers + 1)
  }

  function Unsubscribe(w: Watch): Watch {
    w.(receivers := if w.receivers == 0 then 0 else w.receivers - 1)
  }

  /** Between a granted claim and its release. */
  predicate Live(p: Phase) {
    p.Setup? || p.Reading? || p.Running? || p.Draining? || p.Replying?
  }

  predicate HoldsUpdates(p: Phase) {
    Live(p) && !p.Setup?
  }

  /** A session past setup that still watches for ownership changes. */
  predicate Watching(p: Phase) {
    p.Reading? || p.Running? || p.Replying?
  }

  predicate Init(s: State, n: nat) {
    s == State(Fresh, Watch(0, 0, 0), Watch(0, 0, 0), seq(n, i => Connecting(false)))
  }

  predicate Enabled(s: State, e: Event) {
    e.slot < |s.slots| &&
    var p := s.slots[e.slot];
    match e.action
    case NetworkUp => p.Connecting?
    case AcceptFails => p.Listening?
    case BackoffEnds => p.Backoff?
    case Accepts => p.Listening?
    case HandshakeFails => p.Handshaking?
    case HandshakeSucceeds => p.Handshaking?
    case ListenerNotice => p.Parked? && p.seenListener < s.listenerChanges.id
    case ReadsAnnouncement => p.Setup?
    case RequestArrives => p.Reading?
    case TransportEnds => p.Reading?
    case OwnershipNotice => p.Reading? && p.seen < s.changes.id
    case CommandPending => p.Running?
    case CommandReplies => p.Running?
    case CommandSilent => p.Running?
    case DrainEnds => p.Draining?
    case ReplySent => p.Replying?
    case ReplyFails => p.Replying?
    case Flushed => p.Closing?
  }

  function Put(s: State, i: nat, p: Phase): State
    requires i < |s.slots|
  {
    s.(slots := s.slots[i := p])
  }

  /** `listener_ready`: clear the flag and announce the change when a claim was held back. */
  function AnnounceListener(s: State): State {
    var (admission, unblocked) := ListenerReturned(s.admission);
    s.(admission := admission,
       listenerChanges := if unblocked then Send(s.listenerChanges, s.listenerChanges.value + 1)
                          else s.listenerChanges)
  }

  /** One pass of the loop in `claim`; a grant is announced before anything else runs. */
  function Attempt(s: State, i: nat, seenListener: nat): State
    requires i < |s.slots|
  {
    var (admission, result) := Claimed(s.admission);
    match result
    case WaitForListener => Put(s, i, Parked(seenListener))
    case Granted(generation, _) =>
      Put(s.(admission := admission,
             changes := Send(s.changes, generation),
             listenerChanges := Unsubscribe(s.listenerChanges)),
          i, Setup(generation))
  }

  /** The session returns: its receiver is dropped and its generation released. */
  function EndSession(s: State, i: nat): State
    requires i < |s.slots| && Live(s.slots[i])
  {
    Put(s.(admission := Released(s.admission, s.slots[i].generation),
           changes := Unsubscribe(s.changes)),
        i, Closing(true))
  }

  function Apply(s: State, e: Event): State
    requires Enabled(s, e)
  {
    var i, p := e.slot, s.slots[e.slot];
    match e.action
    case NetworkUp => Put(AnnounceListener(s), i, Listening)
    case AcceptFails => Put(s, i, Backoff)
    case BackoffEnds => Put(s, i, Connecting(false))
    case Accepts => Put(s, i, Handshaking)
    case HandshakeFails => Put(s, i, Closing(false))
    case HandshakeSucceeds =>
      Attempt(s.(listenerChanges := Subscribe(s.listenerChanges)), i, 0)
    case ListenerNotice => Attempt(s, i, s.listenerChanges.id)
    case ReadsAnnouncement =>
      var subscribed := s.(changes := Subscribe(s.changes));
      if s.changes.value != p.generation then EndSession(subscribed, i)
      else Put(subscribed, i, Reading(p.generation, s.changes.id))
    case RequestArrives =>
      if !IsCurrent(s.admission, p.generation) then EndSession(s, i)
      else Put(s, i, Running(p.generation, p.seen))
    case TransportEnds => EndSession(s, i)
    case OwnershipNotice => EndSession(s, i)
    case CommandPending =>
      if p.seen < s.changes.id then Put(s, i, Draining(p.generation)) else s
    case CommandReplies =>
      if !IsCurrent(s.admission, p.generation) then EndSession(s, i)
      else Put(s, i, Replying(p.generation, p.seen))
    case CommandSilent => Put(s, i, Reading(p.generation, p.seen))
    case DrainEnds => EndSession(s, i)
    case ReplySent => Put(s, i, Reading(p.generation, p.seen))
    case ReplyFails => EndSession(s, i)
    case Flushed => Put(s, i, Connecting(p.fromSession))
  }

  // ---------------------------------------------------------------- what each event means

  /** The event is a pass of the claim loop, and what that pass returned. */
  predicate IsGrant(s: State, e: Event) {
    Enabled(s, e) && (e.action.HandshakeSucceeds? || e.action.ListenerNotice?) &&
    Claimed(s.admission).1.Granted?
  }

  function GrantOf(s: State, e: Event): ClaimResult
    requires IsGrant(s, e)
  {
    Claimed(s.admission).1
  }

  predicate StartsCommand(s: State, e: Event)
    requires Enabled(s, e)
  {
    !s.slots[e.slot].Running? && Apply(s, e).slots[e.slot].Running?
  }

  predicate StartsReply(s: State, e: Event)
    requires Enabled(s, e)
  {
    !s.slots[e.slot].Replying? && Apply(s, e).slots[e.slot].Replying?
  }

  predicate PollsCommand(e: Event) {
    e.action.CommandPending? || e.action.CommandReplies? || e.action.CommandSilent?
  }

  // ---------------------------------------------------------------- runs

  ghost predicate IsRun(states: seq<State>, events: seq<Event>, n: nat) {
    && |states| == |events| + 1
    && Init(states[0], n)
    && (forall k :: 0 <= k < |events| ==>
          Enabled(states[k], events[k]) && states[k + 1] == Apply(states[k], events[k]))
    // Every claim is one send, so this bounds the claims below the epoch wrap-around.
    && states[|events|].changes.id < EPOCHS
  }

  // ---------------------------------------------------------------- invariant

  ghost predicate GenerationsOk(s: State) {
    && (forall i :: 0 <= i < |s.slots| && Live(s.slots[i]) ==>
          1 <= s.slots[i].generation <= s.admission.epoch)
    && (forall i, j :: 0 <= i < j < |s.slots| && Live(s.slots[i]) && Live(s.slots[j]) ==>
          s.slots[i].generation != s.slots[j].generation)
  }

  ghost predicate Owns(s: State, i: nat) {
    i < |s.slots| && Live(s.slots[i]) && s.slots[i].generation == s.admission.epoch
  }

  ghost predicate ActiveOk(s: State) {
    s.admission.active <==> exists i: nat :: Owns(s, i)
  }

  ghost predicate WatchOk(s: State) {
    && s.changes.id == s.admission.epoch == s.changes.value
    && (forall i :: 0 <= i < |s.slots| && Watching(s.slots[i]) ==>
          s.slots[i].seen == s.slots[i].generation)
  }

  ghost predicate ParkedOk(s: State) {
    forall i :: 0 <= i < |s.slots| && s.slots[i].Parked? ==>
      && s.slots[i].seenListener <= s.listenerChanges.id
      && (s.slots[i].seenListener == s.listenerChanges.id ==> s.admission.listenerRequired)
  }

  /** The slot is in a superseded session, or on its way back to listening. */
  predicate Returning(s: State, i: nat) {
    i < |s.slots| &&
    (s.slots[i].Closing? || s.slots[i].Connecting? ||
     (Live(s.slots[i]) && s.slots[i].generation < s.admission.epoch))
  }

  ghost predicate ListenerOk(s: State) {
    s.admission.listenerRequired ==> exists i: nat :: Returning(s, i)
  }

  ghost predicate Inv(s: State) {
    GenerationsOk(s) && ActiveOk(s) && WatchOk(s) && ParkedOk(s) && ListenerOk(s)
  }

  lemma InitInv(s: State, n: nat)
    requires Init(s, n)
    ensures Inv(s)
  {
  }

  lemma AttemptInv(s: State, i: nat, seenListener: nat)
    requires Inv(s) && i < |s.slots| && !Live(s.slots[i])
    requires s.slots[i].Handshaking? || s.slots[i].Parked?
    requires seenListener <= s.listenerChanges.id
    requires Attempt(s, i, seenListener).changes.id < EPOCHS
    ensures Inv(Attempt(s, i, seenListener))
  {
    var t := Attempt(s, i, seenListener);
    if s.admission.listenerRequired {
      var w: nat :| Returning(s, w);
      assert Returning(t, w);
      assert forall k: nat :: Owns(s, k) <==> Owns(t, k);
    } else {
      assert Owns(t, i);
      if s.admission.active {
        var w: nat :| Owns(s, w);
        assert Returning(t, w);
      }
    }
  }

  lemma EndSessionInv(s: State, i: nat)
    requires Inv(s) && i < |s.slots| && Live(s.slots[i])
    ensures Inv(EndSession(s, i))
  {
    var t := EndSession(s, i);
    assert forall k: nat :: Owns(t, k) <==> Owns(s, k) && k != i;
    assert forall k: nat :: Returning(s, k) ==> Returning(t, k);
  }

  lemma AnnounceInv(s: State, i: nat)
    requires Inv(s) && i < |s.slots| && s.slots[i].Connecting?
    ensures Inv(Put(AnnounceListener(s), i, Listening))
  {
    var t := Put(AnnounceListener(s), i, Listening);
    assert forall k: nat :: Owns(s, k) <==> Owns(t, k);
  }

  /** Moves of one slot that neither start nor end a session. */
  lemma MoveInv(s: State, i: nat, p: Phase)
    requires Inv(s) && i < |s.slots| && !p.Parked?
    requires Live(p) == Live(s.slots[i])
    requires Live(p) ==> p.generation == s.slots[i].generation
    requires Watching(p) ==> p.seen == p.generation
    requires Returning(s, i) ==> Returning(Put(s, i, p), i)
    ensures Inv(Put(s, i, p))
  {
    var t := Put(s, i, p);
    assert forall k: nat :: Owns(s, k) <==> Owns(t, k);
    assert forall k: nat :: Returning(s, k) ==> Returning(t, k);
  }

  lemma SameButReceivers(s: State, u: State)
    requires Inv(s)
    requires u.admission == s.admission && u.slots == s.slots
    requires u.changes.id == s.changes.id && u.changes.value == s.changes.value
    requires u.listenerChanges.id == s.listenerChanges.id
    ensures Inv(u)
  {
    assert forall k: nat :: Owns(s, k) <==> Owns(u, k);
    assert forall k: nat :: Returning(s, k) <==> Returning(u, k);
  }

  lemma TransportStepInv(s: State, e: Event)
    requires Inv(s) && Enabled(s, e)
    requires e.action in {NetworkUp, AcceptFails, BackoffEnds, Accepts, HandshakeFails, Flushed}
    ensures Inv(Apply(s, e))
  {
    if e.action.NetworkUp? {
      AnnounceInv(s, e.slot);
    } else {
      MoveInv(s, e.slot, Apply(s, e).slots[e.slot]);
    }
  }

  lemma ClaimStepInv(s: State, e: Event)
    requires Inv(s) && Enabled(s, e)
    requires e.action.HandshakeSucceeds? || e.action.ListenerNotice?
    requires Apply(s, e).changes.id < EPOCHS
    ensures Inv(Apply(s, e))
  {
    if e.action.HandshakeSucceeds? {
      var u := s.(listenerChanges := Subscribe(s.listenerChanges));
      SameButReceivers(s, u);
      AttemptInv(u, e.slot, 0);
    } else {
      AttemptInv(s, e.slot, s.listenerChanges.id);
    }
  }

  lemma AnnouncementStepInv(s: State, e: Event)
    requires Inv(s) && Enabled(s, e) && e.action.ReadsAnnouncement?
    ensures Inv(Apply(s, e))
  {
    var p := s.slots[e.slot];
    var u := s.(changes := Subscribe(s.changes));
    SameButReceivers(s, u);
    if s.changes.value != p.generation {
      EndSessionInv(u, e.slot);
    } else {
      MoveInv(u, e.slot, Reading(p.generation, s.changes.id));
    }
  }

  lemma SessionStepInv(s: State, e: Event)
    requires Inv(s) && Enabled(s, e) && HoldsUpdates(s.slots[e.slot])
    ensures Inv(Apply(s, e))
  {
    var q := Apply(s, e).slots[e.slot];
    if q.Closing? {
      EndSessionInv(s, e.slot);
    } else {
      MoveInv(s, e.slot, q);
    }
  }

  /** Every event of every task keeps the invariant. */
  lemma StepInv(s: State, e: Event)
    requires Inv(s) && Enabled(s, e)
    requires Apply(s, e).changes.id < EPOCHS
    ensures Inv(Apply(s, e))
  {
    if HoldsUpdates(s.slots[e.slot]) {
      SessionStepInv(s, e);
    } else if e.action.HandshakeSucceeds? || e.action.ListenerNotice? {
      ClaimStepInv(s, e);
    } else if e.action.ReadsAnnouncement? {
      AnnouncementStepInv(s, e);
    } else {
      TransportStepInv(s, e);
    }
  }
}
