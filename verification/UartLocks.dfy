/**
The two UART mutexes shared by controller sessions and raw clients. Commands take RX and then TX
and keep both to the end; a cancelled session takes RX alone to drain it; a raw client takes RX
while reading and TX while writing, never one inside the other.
*/
module UartLocks {
  import opened Bytes

  datatype Phase =
    // controller session
    | Quiet                        // no servo command
    | CommandWantsRx
    | CommandWantsTx               // holds RX
    | Commanding(command: nat, left: nat)   // holds RX and TX, with at most `left` accesses to come
    | DrainWantsRx                 // cancelled by a takeover
    | DrainHoldsRx(left: nat)      // at most `left` reads to come
    // raw client
    | RawAway
    | RawWantsRx                   // the UART arm of the select waits for RX
    | RawReading                   // the UART arm of the select holds RX
    | RawRelaying                  // writing UART bytes to the network
    | RawWantsTx
    | RawWriting(left: nat)        // holds TX, with at most `left` bytes to come

  /** The longest command is a scan of all addresses: for each a packet, a status and a drain of four
      reads, and one more drain behind a failure. */
  const COMMAND_ACCESSES := 253 * 6 + 4
  const DRAIN_READS := 4
  const COPY_BUFFER_SIZE := 512

  datatype State = State(rx: Option<nat>, tx: Option<nat>, commands: nat, tasks: seq<Phase>)

  datatype Action =
    | BeginCommand | TakeRx | TakeTx
    | WritePacket | ReadStatus | DrainAfterError | FinishCommand
    | CancelCommand | DrainBytes | FinishDrain
    | ClientJoins | Reselect | UartBytes | RelayDone | NetworkBytes | WriteBytes | WriteDone | ClientLeaves

  datatype Event = Event(task: nat, action: Action)

  predicate HoldsRx(p: Phase) {
    p.CommandWantsTx? || p.Commanding? || p.DrainHoldsRx? || p.RawReading?
  }

  predicate HoldsTx(p: Phase) {
    p.Commanding? || p.RawWriting?
  }

  predicate WantsRx(p: Phase) {
    p.CommandWantsRx? || p.DrainWantsRx? || p.RawWantsRx?
  }

  predicate WantsTx(p: Phase) {
    p.CommandWantsTx? || p.RawWantsTx?
  }

  predicate Init(s: State) {
    && s.rx == s.tx == None && s.commands == 0
    && forall i :: 0 <= i < |s.tasks| ==> s.tasks[i] in {Quiet, RawAway}
  }

  predicate Enabled(s: State, e: Event) {
    e.task < |s.tasks| &&
    var p := s.tasks[e.task];
    match e.action
    case BeginCommand => p.Quiet?
    case TakeRx => WantsRx(p) && s.rx.None?
    case TakeTx => WantsTx(p) && s.tx.None?
    case WritePacket => p.Commanding? && p.left > 0
    case ReadStatus => p.Commanding? && p.left > 0
    case DrainAfterError => p.Commanding? && p.left > 0
    case FinishCommand => p.Commanding?
    case CancelCommand => p.CommandWantsRx? || p.CommandWantsTx? || p.Commanding?
    case DrainBytes => p.DrainHoldsRx? && p.left > 0
    case FinishDrain => p.DrainHoldsRx?
    case ClientJoins => p.RawAway?
    // a repeated enable command restarts the select and so drops the lock or the wait for it
    case Reselect => p.RawWantsRx? || p.RawReading?
    case UartBytes => p.RawReading?
    case RelayDone => p.RawRelaying?
    case NetworkBytes => p.RawWantsRx? || p.RawReading?
    case WriteBytes => p.RawWriting? && p.left > 0
    case WriteDone => p.RawWriting?
    case ClientLeaves =>
      p.RawWantsRx? || p.RawReading? || p.RawRelaying? || p.RawWriting?
  }

  function Next(p: Phase, action: Action, commands: nat): Phase
    requires action in {WritePacket, ReadStatus, DrainAfterError} ==> p.Commanding? && p.left > 0
    requires action == DrainBytes ==> p.DrainHoldsRx? && p.left > 0
    requires action == WriteBytes ==> p.RawWriting? && p.left > 0
  {
    match action
    case BeginCommand => CommandWantsRx
    case TakeRx =>
      if p.CommandWantsRx? then CommandWantsTx
      else if p.DrainWantsRx? then DrainHoldsRx(DRAIN_READS)
      else RawReading
    case TakeTx =>
      if p.CommandWantsTx? then Commanding(commands, COMMAND_ACCESSES) else RawWriting(COPY_BUFFER_SIZE)
    case WritePacket => p.(left := p.left - 1)
    case ReadStatus => p.(left := p.left - 1)
    case DrainAfterError => p.(left := p.left - 1)
    case DrainBytes => p.(left := p.left - 1)
    case WriteBytes => p.(left := p.left - 1)
    case FinishCommand => Quiet
    case CancelCommand => DrainWantsRx
    case FinishDrain => Quiet
    case ClientJoins => RawWantsRx
    case Reselect => RawWantsRx
    case UartBytes => RawRelaying
    case RelayDone => RawWantsRx
    case NetworkBytes => RawWantsTx
    case WriteDone => RawWantsRx
    case ClientLeaves => RawAway
  }

  /** A lock after its holder moved on: dropping the guard frees it, taking it names the holder. */
  function Lock(lock: Option<nat>, task: nat, held: bool, holds: bool): Option<nat> {
    if holds then Some(task) else if held then None else lock
  }

  function Apply(s: State, e: Event): State
    requires Enabled(s, e)
  {
    var p := s.tasks[e.task];
    var q := Next(p, e.action, s.commands);
    State(Lock(s.rx, e.task, HoldsRx(p), HoldsRx(q)),
          Lock(s.tx, e.task, HoldsTx(p), HoldsTx(q)),
          if q.Commanding? && !p.Commanding? then s.commands + 1 else s.commands,
          s.tasks[e.task := q])
  }

  ghost predicate IsRun(states: seq<State>, events: seq<Event>) {
    && |states| == |events| + 1
    && Init(states[0])
    && (forall k :: 0 <= k < |events| ==>
          Enabled(states[k], events[k]) && states[k + 1] == Apply(states[k], events[k]))
  }

  // ---------------------------------------------------------------- mutual exclusion

  predicate WithinLimits(p: Phase) {
    && (p.Commanding? ==> p.left <= COMMAND_ACCESSES)
    && (p.DrainHoldsRx? ==> p.left <= DRAIN_READS)
    && (p.RawWriting? ==> p.left <= COPY_BUFFER_SIZE)
  }

  ghost predicate Inv(s: State) {
    && (forall i: nat :: s.rx == Some(i) ==> i < |s.tasks| && HoldsRx(s.tasks[i]))
    && (forall i: nat :: s.tx == Some(i) ==> i < |s.tasks| && HoldsTx(s.tasks[i]))
    && (forall i: nat :: i < |s.tasks| && HoldsRx(s.tasks[i]) ==> s.rx == Some(i))
    && (forall i: nat :: i < |s.tasks| && HoldsTx(s.tasks[i]) ==> s.tx == Some(i))
    && (forall i: nat :: i < |s.tasks| && s.tasks[i].Commanding? ==>
          s.tasks[i].command < s.commands)
    && (forall i: nat :: i < |s.tasks| ==> WithinLimits(s.tasks[i]))
  }

  lemma StepInv(s: State, e: Event)
    requires Inv(s) && Enabled(s, e)
    ensures Inv(Apply(s, e))
  {
  }

  /** A lock is held exactly by whoever is inside it, so by at most one. */
  lemma {:induction false} LocksExclude(states: seq<State>, events: seq<Event>, k: nat)
    requires IsRun(states, events) && k <= |events|
    ensures Inv(states[k])
  {
    if k > 0 {
      LocksExclude(states, events, k - 1);
      StepInv(states[k - 1], events[k - 1]);
    }
  }

  // ---------------------------------------------------------------- commands are not interleaved

  /** The event moves bytes over the UART. */
  predicate IsTraffic(e: Event) {
    e.action in {WritePacket, ReadStatus, DrainAfterError, DrainBytes, UartBytes, WriteBytes}
  }

  predicate Serves(s: State, i: nat, command: nat) {
    i < |s.tasks| && s.tasks[i].Commanding? && s.tasks[i].command == command
  }

  ghost predicate Finished(s: State, command: nat) {
    command < s.commands && forall i: nat :: !Serves(s, i, command)
  }

  lemma FinishedStep(s: State, e: Event, command: nat)
    requires Finished(s, command) && Enabled(s, e)
    ensures Finished(Apply(s, e), command)
  {
    forall i: nat
      ensures !Serves(Apply(s, e), i, command)
    {
      assert !Serves(s, i, command);
    }
  }

  lemma ServesOrFinished(s: State, e: Event, i: nat, command: nat)
    requires Inv(s) && Enabled(s, e) && Serves(s, i, command)
    ensures Serves(Apply(s, e), i, command) || Finished(Apply(s, e), command)
  {
    if !Serves(Apply(s, e), i, command) {
      assert e.task == i;
      assert forall j: nat :: Serves(s, j, command) ==> s.rx == Some(j);
      assert Finished(Apply(s, e), command);
    }
  }

  lemma {:induction false} FinishedForever(states: seq<State>, events: seq<Event>, command: nat, a: nat, b: nat)
    requires IsRun(states, events) && a <= b <= |events|
    requires Finished(states[a], command)
    ensures Finished(states[b], command)
    decreases b - a
  {
    if a < b {
      FinishedStep(states[a], events[a], command);
      FinishedForever(states, events, command, a + 1, b);
    }
  }

  lemma {:induction false} ServesThroughout(
      states: seq<State>, events: seq<Event>, command: nat, i: nat, j: nat, a: nat, m: nat, b: nat)
    requires IsRun(states, events) && a <= m <= b < |events|
    requires Serves(states[a], i, command) && Serves(states[b], j, command)
    ensures Serves(states[m], i, command)
    decreases m - a
  {
    if a < m {
      ServesThroughout(states, events, command, i, j, a, m - 1, b);
      LocksExclude(states, events, m - 1);
      ServesOrFinished(states[m - 1], events[m - 1], i, command);
      if !Serves(states[m], i, command) {
        FinishedForever(states, events, command, m, b);
      }
    }
  }

  lemma ServerOwnsTheUart(s: State, e: Event, i: nat, command: nat)
    requires Inv(s) && Enabled(s, e) && Serves(s, i, command)
    ensures s.rx == s.tx == Some(i) && (IsTraffic(e) ==> e.task == i)
  {
    assert HoldsRx(s.tasks[i]) && HoldsTx(s.tasks[i]);
  }

  /** From a command's first UART access to its last, its task holds both locks without a break and
      every byte on the UART is moved by that task. */
  lemma CommandHoldsTheBus(
      states: seq<State>, events: seq<Event>, command: nat, i: nat, j: nat, a: nat, m: nat, b: nat)
    requires IsRun(states, events) && a <= m <= b < |events|
    requires Serves(states[a], i, command) && Serves(states[b], j, command)
    ensures Serves(states[m], i, command)
    ensures states[m].rx == states[m].tx == Some(i)
    ensures IsTraffic(events[m]) ==> events[m].task == i
  {
    ServesThroughout(states, events, command, i, j, a, m, b);
    LocksExclude(states, events, m);
    ServerOwnsTheUart(states[m], events[m], i, command);
  }

  // ---------------------------------------------------------------- no wait cycle

  predicate WaitsFor(s: State, i: nat, j: nat) {
    i < |s.tasks| &&
    ((WantsRx(s.tasks[i]) && s.rx == Some(j)) || (WantsTx(s.tasks[i]) && s.tx == Some(j)))
  }

  /** Height in the lock order: RX waiters above TX waiters above tasks that wait for nothing. */
  function Height(s: State, i: nat): nat {
    if i >= |s.tasks| then 0
    else if WantsRx(s.tasks[i]) then 2
    else if WantsTx(s.tasks[i]) then 1
    else 0
  }

  lemma WaitingDescends(s: State, i: nat, j: nat)
    requires Inv(s) && WaitsFor(s, i, j)
    ensures Height(s, j) < Height(s, i)
  {
  }

  /** Each task of the chain waits for a lock the next one holds. */
  predicate IsWaitChain(s: State, chain: seq<nat>) {
    forall m :: 0 <= m < |chain| - 1 ==> WaitsFor(s, chain[m], chain[m + 1])
  }

  lemma {:induction false} ChainDescends(s: State, chain: seq<nat>)
    requires Inv(s) && |chain| >= 2
    requires IsWaitChain(s, chain)
    ensures Height(s, chain[|chain| - 1]) + |chain| - 1 <= Height(s, chain[0])
  {
    WaitingDescends(s, chain[0], chain[1]);
    if |chain| > 2 {
      var rest := chain[1..];
      forall k | 0 <= k < |rest| - 1
        ensures WaitsFor(s, rest[k], rest[k + 1])
      {
        assert WaitsFor(s, chain[k + 1], chain[k + 1 + 1]);
      }
      ChainDescends(s, rest);
    }
  }

  /** In every reachable state a chain of tasks, each waiting for the next, has at most two links,
      and never comes back to its start. */
  lemma NoWaitCycle(states: seq<State>, events: seq<Event>, k: nat, chain: seq<nat>)
    requires IsRun(states, events) && k <= |events| && |chain| >= 2
    requires IsWaitChain(states[k], chain)
    ensures |chain| <= 3 && chain[0] != chain[|chain| - 1]
  {
    LocksExclude(states, events, k);
    ChainDescends(states[k], chain);
  }

  /** Going on from a wait: a lock is taken, or one that is held is given up. */
  predicate GoesOn(action: Action) {
    action in {TakeRx, TakeTx, FinishCommand, FinishDrain, UartBytes, WriteDone}
  }

  /** The step that takes a lock which is free or gives up one that is held. */
  function StepOn(p: Phase): Action {
    match p
    case CommandWantsRx => TakeRx
    case DrainWantsRx => TakeRx
    case RawWantsRx => TakeRx
    case CommandWantsTx => TakeTx
    case RawWantsTx => TakeTx
    case Commanding(_, _) => FinishCommand
    case DrainHoldsRx(_) => FinishDrain
    case RawReading => UartBytes
    case _ => WriteDone
  }

  lemma UnblockedCanGoOn(s: State, i: nat)
    requires Inv(s) && i < |s.tasks|
    requires WantsRx(s.tasks[i]) || WantsTx(s.tasks[i]) || HoldsRx(s.tasks[i]) || HoldsTx(s.tasks[i])
    requires WantsRx(s.tasks[i]) ==> s.rx.None?
    requires WantsTx(s.tasks[i]) ==> s.tx.None?
    ensures Enabled(s, Event(i, StepOn(s.tasks[i]))) && GoesOn(StepOn(s.tasks[i]))
  {
  }

  /** The chain starts at `i` and ends in a task that waits for no one and has a step of its own. */
  ghost predicate LeadsToAStep(s: State, i: nat, chain: seq<nat>) {
    && chain != [] && chain[0] == i && IsWaitChain(s, chain)
    && var last := chain[|chain| - 1];
       && last < |s.tasks| && (forall j :: !WaitsFor(s, last, j))
       && Enabled(s, Event(last, StepOn(s.tasks[last]))) && GoesOn(StepOn(s.tasks[last]))
  }

  lemma {:induction false} ChainFrom(s: State, i: nat) returns (chain: seq<nat>)
    requires Inv(s) && i < |s.tasks|
    requires WantsRx(s.tasks[i]) || WantsTx(s.tasks[i]) || HoldsRx(s.tasks[i]) || HoldsTx(s.tasks[i])
    ensures LeadsToAStep(s, i, chain)
    decreases Height(s, i)
  {
    var lock := if WantsRx(s.tasks[i]) then s.rx else if WantsTx(s.tasks[i]) then s.tx else None;
    if lock.Some? {
      WaitingDescends(s, i, lock.value);
      var rest := ChainFrom(s, lock.value);
      chain := [i] + rest;
    } else {
      UnblockedCanGoOn(s, i);
      chain := [i];
    }
  }

  /** Following who waits for whom from any task that wants a lock ends in a task that waits for no
      one: it can take its lock at once, or holds one and has the step that gives it up. */
  lemma WaitEndsInAStep(states: seq<State>, events: seq<Event>, k: nat, i: nat) returns (chain: seq<nat>)
    requires IsRun(states, events) && k <= |events|
    requires i < |states[k].tasks| && (WantsRx(states[k].tasks[i]) || WantsTx(states[k].tasks[i]))
    ensures LeadsToAStep(states[k], i, chain) && |chain| <= 3
  {
    LocksExclude(states, events, k);
    chain := ChainFrom(states[k], i);
    if |chain| >= 2 {
      NoWaitCycle(states, events, k, chain);
    }
  }
}
