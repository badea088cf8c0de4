/**
The host's JSON-RPC client: pairing replies with requests on one controller connection, and which
failures keep or drop that connection.
*/
module HostRpc {
  import opened Bytes

  const ID_SPACE := 0x1_0000_0000
  const MAX_STALE := 32

  // ---------------------------------------------------------------- messages and failures

  /** A parsed reply. `origin` is the number of the request the controller answered; the client
      never looks at it. */
  datatype Reply = Reply(
    supported: bool, id: Option<u32>, result: Option<string>, error: Option<(string, string)>, origin: nat)

  /** What one wait on the WebSocket yields. */
  datatype Incoming =
    | Text(reply: Reply)
    | Malformed(detail: string)
    | Ping(pongError: Option<string>)    // the reason when answering it fails
    | Pong
    | Close
    | Unsupported
    | EndOfStream
    | Failed(detail: string)

  datatype RpcError =
    | SendTimedOut
    | SendFailed(detail: string)
    | ResponseTimedOut
    | Closed
    | ReadFailed(detail: string)
    | InvalidJson(detail: string)
    | UnsupportedVersion
    | PongFailed(detail: string)
    | UnsupportedMessage
    | TooManyStale
    // the reply arrived, or nothing was sent
    | EncodeFailed(detail: string)
    | McuError(code: string, message: string)
    | InvalidCombination
    | NotReady
    | NotAccepted
    | BadPosition(detail: string)
    | OtherServo(detail: string)
    | BadScan(detail: string)
    | BadScanId(detail: string)
    | BadServoId
    | BadSpeed
    | BadGoal
    | BadTorque
    | BadRange
    | TooManyServos

  /** The message shown for a failure; its text is all that later decisions see. The longer texts are
      sums of short literals because the verifier turns a literal into one nested term per character,
      and comparing such terms gets out of hand beyond some thirty characters. */
  function Message(e: RpcError): string {
    match e
    case SendTimedOut => "Timed out sending a JSON-RPC " + "command to the MCU"
    case SendFailed(d) => "Could not send a JSON-RPC " + "command to the MCU: " + d
    case ResponseTimedOut => "Timed out waiting for an MCU " + "JSON-RPC response"
    case Closed => "MCU closed the JSON-RPC " + "WebSocket"
    case ReadFailed(d) => "Could not read an MCU " + "JSON-RPC response: " + d
    case InvalidJson(d) => "MCU sent invalid JSON-RPC: " + d
    case UnsupportedVersion => "MCU sent a JSON-RPC response " + "with an unsupported version"
    case PongFailed(d) => "Could not answer MCU " + "WebSocket ping: " + d
    case UnsupportedMessage => "MCU sent an unsupported " + "WebSocket message"
    case TooManyStale => "MCU sent too many stale " + "JSON-RPC responses"
    case EncodeFailed(d) => "Could not encode JSON-RPC " + "request: " + d
    case McuError(code, message) => "MCU JSON-RPC error " + code + ": " + message
    case InvalidCombination => "MCU returned an invalid " + "JSON-RPC result/error " + "combination"
    case NotReady => "MCU returned an unexpected " + "result to system.ping"
    case NotAccepted => "MCU rejected the controller " + "command without an accepted " + "result"
    case BadPosition(d) => "MCU returned an invalid " + "position result: " + d
    case OtherServo(d) => "MCU returned a position for " + "servo " + d
    case BadScan(d) => "MCU returned an invalid " + "servo-scan result: " + d
    case BadScanId(d) => "MCU returned an invalid " + "scanned servo ID " + d
    case BadServoId => "Servo ID must be between 1 " + "and 253"
    case BadSpeed => "Motor speed must be between 0 " + "and 4095"
    case BadGoal => "Position must be between 0 " + "and 4095"
    case BadTorque => "Torque limit must be between " + "0 and 1000"
    case BadRange => "Servo search IDs must be " + "between 1 and 253, with a " + "start no greater than the end"
    case TooManyServos => "At most six position servos " + "can be read at once"
  }

  const BrokenPrefixes: seq<string> := [
    "Timed out sending command to " + "the MCU",
    "Could not send command to the " + "MCU",
    "Could not read STS servo reply",
    "Timed out sending a JSON-RPC " + "command to the MCU",
    "Could not send a JSON-RPC " + "command to the MCU",
    "Timed out waiting for an MCU " + "JSON-RPC response",
    "MCU closed the JSON-RPC " + "WebSocket",
    "Could not read an MCU " + "JSON-RPC response",
    "MCU sent invalid JSON-RPC",
    "MCU sent a JSON-RPC response " + "with an unsupported version",
    "Could not answer MCU " + "WebSocket ping",
    "MCU sent an unsupported " + "WebSocket message",
    "MCU sent too many stale " + "JSON-RPC responses"]

  /** `connection_is_usable_after`: a test of the message text alone. */
  predicate UsableAfter(error: string) {
    forall k :: 0 <= k < |BrokenPrefixes| ==> !(BrokenPrefixes[k] <= error)
  }

  /** Failures after which the reply may still be on its way, or the socket is gone. */
  predicate LeavesRequestOpen(e: RpcError) {
    e.SendTimedOut? || e.SendFailed? || e.ResponseTimedOut? || e.Closed? || e.ReadFailed? ||
    e.InvalidJson? || e.UnsupportedVersion? || e.PongFailed? || e.UnsupportedMessage? || e.TooManyStale?
  }

  lemma OpenFailuresMatchAPrefix(e: RpcError)
    requires LeavesRequestOpen(e)
    ensures !UsableAfter(Message(e))
  {
    var k :=
      match e
      case SendTimedOut => 3
      case SendFailed(_) => 4
      case ResponseTimedOut => 5
      case Closed => 6
      case ReadFailed(_) => 7
      case InvalidJson(_) => 8
      case UnsupportedVersion => 9
      case PongFailed(_) => 10
      case UnsupportedMessage => 11
      case _ => 12;
    assert BrokenPrefixes[k] <= Message(e);
  }

  /** Opening letters that tell the broken-connection messages from all others. */
  predicate LooksBroken(text: string) {
    |text| >= 11 &&
    (|| (text[0] == 'C' && text[10] != 'e')
     || (text[0] == 'T' && text[1] == 'i')
     || (text[0] == 'M' && (text[4] == 'c' || text[4] == 's')))
  }

  lemma PrefixesLookBroken(k: nat)
    requires k < |BrokenPrefixes|
    ensures LooksBroken(BrokenPrefixes[k])
  {
    var p := BrokenPrefixes[k];
    if k in {0, 3, 5} {
      assert p[0] == 'T' && p[1] == 'i';
    } else if k in {1, 2, 4, 7, 10} {
      assert p[0] == 'C' && p[10] != 'e';
    } else if k == 6 {
      assert p[0] == 'M' && p[4] == 'c';
    } else {
      assert p[0] == 'M' && p[4] == 's';
    }
  }

  lemma OthersDoNotLookBroken(e: RpcError)
    requires !LeavesRequestOpen(e)
    ensures !LooksBroken(Message(e))
  {
    var text := Message(e);
    if e.EncodeFailed? {
      assert text[0] == 'C' && text[10] == 'e';
    } else if e.McuError? {
      assert text[0] == 'M' && text[4] == 'J';
    } else if e.BadTorque? {
      assert text[0] == 'T' && text[1] == 'o';
    } else if e.BadServoId? || e.BadRange? {
      assert text[0] == 'S';
    } else if e.BadGoal? {
      assert text[0] == 'P';
    } else if e.TooManyServos? {
      assert text[0] == 'A';
    } else {
      RepliesDoNotLookBroken(e);
    }
  }

  lemma RepliesDoNotLookBroken(e: RpcError)
    requires e.InvalidCombination? || e.NotReady? || e.NotAccepted? || e.BadPosition? || e.OtherServo? ||
             e.BadScan? || e.BadScanId? || e.BadSpeed?
    ensures |Message(e)| >= 5 && Message(e)[0] == 'M' && Message(e)[4] == 'r'
  {
  }

  /** The text test drops the connection exactly for the failures that leave the request open,
      whatever details a message carries. */
  lemma MessageDecidesConnection(e: RpcError)
    ensures UsableAfter(Message(e)) <==> !LeavesRequestOpen(e)
  {
    if LeavesRequestOpen(e) {
      OpenFailuresMatchAPrefix(e);
    } else {
      OthersDoNotLookBroken(e);
      forall k | 0 <= k < |BrokenPrefixes|
        ensures !(BrokenPrefixes[k] <= Message(e))
      {
        PrefixesLookBroken(k);
      }
    }
  }

  /** Failures of the raw debug stream, which carries no request IDs. */
  datatype RawError =
    | RawSendTimedOut
    | RawSendFailed(detail: string)
    | RawReplyTimedOut
    | RawReadFailed(detail: string)

  function RawMessage(e: RawError): string {
    match e
    case RawSendTimedOut => "Timed out sending command to " + "the MCU"
    case RawSendFailed(d) => "Could not send command to the " + "MCU: " + d
    case RawReplyTimedOut => "Timed out waiting for an STS " + "servo reply"
    case RawReadFailed(d) => "Could not read STS servo reply" + ": " + d
  }

  /** There a failed transfer drops the connection, and a reply that does not come keeps it. */
  lemma RawMessageDecidesConnection(e: RawError)
    ensures UsableAfter(RawMessage(e)) <==> e.RawReplyTimedOut?
  {
    match e
    case RawSendTimedOut => assert BrokenPrefixes[0] <= RawMessage(e);
    case RawSendFailed(_) => assert BrokenPrefixes[1] <= RawMessage(e);
    case RawReadFailed(_) => assert BrokenPrefixes[2] <= RawMessage(e);
    case RawReplyTimedOut => RawTimeoutIsNoPrefix();
  }

  lemma RawTimeoutIsNoPrefix()
    ensures UsableAfter(RawMessage(RawReplyTimedOut))
  {
    var text := RawMessage(RawReplyTimedOut);
    assert text[0] == 'T' && text[10] == 'w' && text[25] == 'S';
    forall k | 0 <= k < |BrokenPrefixes|
      ensures !(BrokenPrefixes[k] <= text)
    {
      if k in {0, 3} {
        assert BrokenPrefixes[k][10] == 's';
      } else if k == 5 {
        assert BrokenPrefixes[k][25] == 'M';
      } else {
        assert BrokenPrefixes[k][0] != 'T';
      }
    }
  }

  // ---------------------------------------------------------------- one request

  datatype SendOutcome = Sent | TimedOut | SendError(detail: string) | EncodeError(detail: string)

  /** The result, how many messages were read, and the reply that answered, if any. */
  datatype Awaited = Awaited(result: Result<string, RpcError>, consumed: nat, reply: Option<Reply>)

  predicate Answers(m: Incoming, id: u32) {
    m.Text? && m.reply.supported && m.reply.id == Some(id)
  }

  /** Messages the client reads past: replies to other requests, answered pings, pongs. */
  predicate Skipped(m: Incoming, id: u32) {
    match m
    case Text(reply) => reply.supported && reply.id != Some(id)
    case Ping(pongError) => pongError.None?
    case Pong => true
    case _ => false
  }

  function ResultOf(reply: Reply): Result<string, RpcError> {
    match (reply.result, reply.error)
    case (Some(value), None) => Ok(value)
    case (None, Some(error)) => Err(McuError(error.0, error.1))
    case _ => Err(InvalidCombination)
  }

  /** The failure a message that is neither skipped nor an answer stands for. */
  function FailureOf(m: Incoming): RpcError {
    match m
    case Text(_) => UnsupportedVersion
    case Malformed(detail) => InvalidJson(detail)
    case Ping(pongError) => PongFailed(pongError.GetOr(""))
    case Pong => UnsupportedMessage
    case Close => Closed
    case Unsupported => UnsupportedMessage
    case EndOfStream => Closed
    case Failed(detail) => ReadFailed(detail)
  }

  /** What one message does to the wait: an answer or failure ends it, otherwise it goes on. */
  function Decide(m: Incoming, id: u32): Option<Result<string, RpcError>> {
    if Answers(m, id) then Some(ResultOf(m.reply))
    else if Skipped(m, id) then None
    else Some(Err(FailureOf(m)))
  }

  method Examine(message: Incoming, id: u32) returns (r: Option<Result<string, RpcError>>)
    ensures r == Decide(message, id)
  {
    match message {
      case Malformed(detail) => return Some(Err(InvalidJson(detail)));
      case Text(reply) =>
        if !reply.supported {
          return Some(Err(UnsupportedVersion));
        }
        return if reply.id != Some(id) then None else Some(ResultOf(reply));
      case Ping(pongError) =>
        return if pongError.Some? then Some(Err(PongFailed(pongError.value))) else None;
      case Pong => return None;
      case Close => return Some(Err(Closed));
      case Unsupported => return Some(Err(UnsupportedMessage));
      case EndOfStream => return Some(Err(Closed));
      case Failed(detail) => return Some(Err(ReadFailed(detail)));
    }
  }

  /** The reply loop with `budget` reads left; an empty inbox is a timeout. */
  function Await(inbox: seq<Incoming>, id: u32, budget: nat): Awaited
    decreases |inbox|
  {
    if budget == 0 then Awaited(Err(TooManyStale), 0, None)
    else if inbox == [] then Awaited(Err(ResponseTimedOut), 0, None)
    else if Answers(inbox[0], id) then Awaited(ResultOf(inbox[0].reply), 1, Some(inbox[0].reply))
    else if Skipped(inbox[0], id) then
      var later := Await(inbox[1..], id, budget - 1);
      later.(consumed := later.consumed + 1)
    else Awaited(Err(FailureOf(inbox[0])), 1, None)
  }

  /** At most the budget is read; an answer ends the wait and decides the result, and without one the
      request is left open. */
  lemma {:induction false} AwaitShape(inbox: seq<Incoming>, id: u32, budget: nat)
    ensures var a := Await(inbox, id, budget);
            && a.consumed <= budget && a.consumed <= |inbox|
            && (forall k :: 0 <= k < a.consumed - 1 ==> Skipped(inbox[k], id))
            && (a.reply.Some? ==>
                  a.consumed > 0 && Answers(inbox[a.consumed - 1], id) &&
                  inbox[a.consumed - 1].reply == a.reply.value && a.result == ResultOf(a.reply.value) &&
                  (a.result.Err? ==> !LeavesRequestOpen(a.result.error)))
            && (a.reply.None? ==>
                  a.result.Err? && LeavesRequestOpen(a.result.error) &&
                  forall k :: 0 <= k < a.consumed ==> !Answers(inbox[k], id))
    decreases budget
  {
    if budget > 0 && inbox != [] && Skipped(inbox[0], id) {
      AwaitShape(inbox[1..], id, budget - 1);
    }
  }

  /** However many messages the client may read past come first, it returns its own reply and stops
      right behind it, as long as they are fewer than 32; otherwise it gives up. */
  lemma {:induction false} AnswerBehindStaleMessages(
      stale: seq<Incoming>, answer: Incoming, rest: seq<Incoming>, id: u32, budget: nat)
    requires forall m :: m in stale ==> Skipped(m, id)
    requires Answers(answer, id)
    ensures Await(stale + [answer] + rest, id, budget) ==
            if |stale| < budget then Awaited(ResultOf(answer.reply), |stale| + 1, Some(answer.reply))
            else Awaited(Err(TooManyStale), budget, None)
    decreases budget
  {
    var inbox := stale + [answer] + rest;
    if budget > 0 && stale != [] {
      assert inbox[0] == stale[0] && Skipped(stale[0], id);
      assert inbox[1..] == stale[1..] + [answer] + rest;
      AnswerBehindStaleMessages(stale[1..], answer, rest, id, budget - 1);
    }
  }

  /** A request succeeds with a value exactly when the first message it does not read past, among the
      first 32, is its reply with that result and no error; an error reply is never a success. */
  lemma SuccessIsACleanReply(inbox: seq<Incoming>, id: u32, budget: nat, value: string)
    ensures Await(inbox, id, budget).result == Ok(value) <==>
            exists k: nat :: k < budget && IsFirstCleanReply(inbox, id, value, k)
  {
    AwaitShape(inbox, id, budget);
    var a := Await(inbox, id, budget);
    if a.result == Ok(value) {
      assert IsFirstCleanReply(inbox, id, value, a.consumed - 1);
    }
    if k: nat :| k < budget && IsFirstCleanReply(inbox, id, value, k) {
      CleanReplySucceeds(inbox, id, budget, value, k);
    }
  }

  lemma CleanReplySucceeds(inbox: seq<Incoming>, id: u32, budget: nat, value: string, k: nat)
    requires k < budget && IsFirstCleanReply(inbox, id, value, k)
    ensures Await(inbox, id, budget).result == Ok(value)
  {
    var stale, answer, rest := inbox[..k], inbox[k], inbox[k + 1..];
    assert inbox == stale + [answer] + rest;
    AnswerBehindStaleMessages(stale, answer, rest, id, budget);
  }

  /** Message `k` is the own reply with this result, and everything before it is read past. */
  predicate IsFirstCleanReply(inbox: seq<Incoming>, id: u32, value: string, k: nat) {
    k < |inbox| && IsCleanReply(inbox[k], id, value) && forall j :: 0 <= j < k ==> Skipped(inbox[j], id)
  }

  predicate IsCleanReply(m: Incoming, id: u32, value: string) {
    m.Text? && m.reply.supported && m.reply.id == Some(id) && m.reply.result == Some(value) && m.reply.error == None
  }

  /** An own reply with only an error is that error; with both or neither it is malformed. */
  lemma OtherRepliesFail(reply: Reply, id: u32)
    requires reply.supported && reply.id == Some(id)
    ensures reply.error.Some? && reply.result.None? ==>
              Decide(Text(reply), id) == Some(Err(McuError(reply.error.value.0, reply.error.value.1)))
    ensures reply.error.Some? == reply.result.Some? ==> Decide(Text(reply), id) == Some(Err(InvalidCombination))
  {
  }

  /** Exactly these are read past: pongs, pings that could be answered, replies to other requests. */
  lemma ReadPastExactly(m: Incoming, id: u32)
    ensures Decide(m, id).None? <==>
            || m == Pong || m == Ping(None)
            || (m.Text? && m.reply.supported && m.reply.id != Some(id))
  {
  }

  /** How every other message ends the wait, and what silence does. */
  lemma FailuresNameTheirCause(reply: Reply, detail: string, id: u32)
    ensures !reply.supported ==> Decide(Text(reply), id) == Some(Err(UnsupportedVersion))
    ensures Decide(Malformed(detail), id) == Some(Err(InvalidJson(detail)))
    ensures Decide(Ping(Some(detail)), id) == Some(Err(PongFailed(detail)))
    ensures Decide(Failed(detail), id) == Some(Err(ReadFailed(detail)))
    ensures Decide(Close, id) == Decide(EndOfStream, id) == Some(Err(Closed))
    ensures Decide(Unsupported, id) == Some(Err(UnsupportedMessage))
    ensures Await([], id, MAX_STALE).result == Err(ResponseTimedOut)
  {
  }

  /** A request gets its own reply behind up to 31 messages it reads past, and takes no message more. */
  lemma RequestReadsAtMost32(c: Connection, stale: seq<Incoming>, answer: Incoming, rest: seq<Incoming>)
    requires (forall m :: m in stale ==> Skipped(m, c.nextId)) && Answers(answer, c.nextId) && c.inbox == []
    ensures var (d, result) := Request(c, Exchange(Sent, stale + [answer] + rest));
            if |stale| < 32 then result == ResultOf(answer.reply) && d.inbox == rest && d.open == c.open
            else result == Err(TooManyStale) && d.inbox == (stale + [answer] + rest)[32..]
  {
    var arrivals := stale + [answer] + rest;
    assert c.inbox + arrivals == arrivals;
    AnswerBehindStaleMessages(stale, answer, rest, c.nextId, MAX_STALE);
    assert (stale + [answer] + rest)[|stale| + 1..] == rest;
  }

  /** A controller connection: the next request ID, how many requests it has issued, unread messages,
      and the IDs of requests whose reply has not been read. */
  datatype Connection = Connection(nextId: u32, issued: nat, inbox: seq<Incoming>, open: set<u32>)

  const FreshConnection := Connection(1, 0, [], {})

  /** One request: whether sending worked, and the messages that arrive before the wait ends. */
  datatype Exchange = Exchange(send: SendOutcome, arrivals: seq<Incoming>)

  function Request(c: Connection, x: Exchange): (Connection, Result<string, RpcError>) {
    var id := c.nextId;
    var issued := c.(nextId := (id + 1) % ID_SPACE, issued := c.issued + 1, open := c.open + {id});
    match x.send
    case TimedOut => (issued, Err(SendTimedOut))
    case SendError(detail) => (issued, Err(SendFailed(detail)))
    case EncodeError(detail) => (issued.(open := c.open), Err(EncodeFailed(detail)))
    case Sent =>
      AwaitShape(c.inbox + x.arrivals, id, MAX_STALE);
      var a := Await(c.inbox + x.arrivals, id, MAX_STALE);
      (issued.(inbox := (c.inbox + x.arrivals)[a.consumed..],
               open := if a.reply.Some? then c.open else issued.open),
       a.result)
  }

  /** A failure that keeps the connection means this request's reply has been read. */
  lemma RequestIsSettled(c: Connection, x: Exchange)
    ensures var (d, result) := Request(c, x);
            result.Ok? || UsableAfter(Message(result.error)) ==> d.open == c.open
  {
    var (d, result) := Request(c, x);
    AwaitShape(c.inbox + x.arrivals, c.nextId, MAX_STALE);
    if result.Err? {
      MessageDecidesConnection(result.error);
    }
  }

  // ---------------------------------------------------------------- reply pairing

  /** ID of the n-th request on a connection. */
  function IdOf(n: nat): u32 {
    (n + 1) % ID_SPACE
  }

  /** The controller answers requests it has received, copying their ID. */
  predicate Honest(messages: seq<Incoming>, received: nat) {
    forall m :: m in messages && m.Text? && m.reply.id.Some? ==>
      m.reply.origin < received && m.reply.id.value == IdOf(m.reply.origin)
  }

  lemma SameIdMeansWholeCycles(a: nat, b: nat)
    requires a <= b && IdOf(a) == IdOf(b)
    ensures (b - a) % ID_SPACE == 0
    ensures b < ID_SPACE ==> a == b
  {
    var qa, qb := (a + 1) / ID_SPACE, (b + 1) / ID_SPACE;
    assert b - a == (qb - qa) * ID_SPACE;
  }

  /** The reply to the n-th request was produced for that very request, or for one a whole number of
      ID cycles older; within 2^32 requests it is its own. */
  lemma ReplyBelongsToRequest(inbox: seq<Incoming>, n: nat)
    requires Honest(inbox, n + 1)
    ensures var a := Await(inbox, IdOf(n), MAX_STALE);
            a.reply.Some? ==>
              && a.result == ResultOf(a.reply.value)
              && a.reply.value.origin <= n
              && (n - a.reply.value.origin) % 0x1_0000_0000 == 0
              && (n < 0x1_0000_0000 ==> a.reply.value.origin == n)
  {
    AwaitShape(inbox, IdOf(n), MAX_STALE);
    var a := Await(inbox, IdOf(n), MAX_STALE);
    if a.reply.Some? {
      assert inbox[a.consumed - 1] in inbox;
      SameIdMeansWholeCycles(a.reply.value.origin, n);
    }
  }

  /** What the pairing relies on holds for a fresh connection and after every request. */
  lemma RequestKeepsPairing(c: Connection, x: Exchange)
    requires c.nextId == IdOf(c.issued) && Honest(c.inbox, c.issued)
    requires Honest(x.arrivals, c.issued + 1)
    ensures Honest(c.inbox + x.arrivals, c.issued + 1)
    ensures var (d, _) := Request(c, x);
            d.nextId == IdOf(d.issued) && Honest(d.inbox, d.issued)
    ensures FreshConnection.nextId == IdOf(0) && Honest(FreshConnection.inbox, 0)
  {
    AwaitShape(c.inbox + x.arrivals, c.nextId, MAX_STALE);
    HonestTogether(c.inbox, x.arrivals, c.issued, Await(c.inbox + x.arrivals, c.nextId, MAX_STALE).consumed);
    NextId(c.issued);
  }

  lemma HonestTogether(old': seq<Incoming>, arrivals: seq<Incoming>, received: nat, k: nat)
    requires Honest(old', received) && Honest(arrivals, received + 1) && k <= |old' + arrivals|
    ensures Honest(old', received + 1)
    ensures Honest(old' + arrivals, received + 1) && Honest((old' + arrivals)[k..], received + 1)
  {
  }

  lemma NextId(n: nat)
    ensures (IdOf(n) + 1) % ID_SPACE == IdOf(n + 1)
  {
  }

  /** A connection after a sequence of requests. */
  function After(c: Connection, xs: seq<Exchange>): Connection
    decreases |xs|
  {
    if xs == [] then c else After(Request(c, xs[0]).0, xs[1..])
  }

  /** Requests are numbered from 1, wrapping at 2^32. */
  lemma {:induction false} RequestsAreNumbered(c: Connection, xs: seq<Exchange>)
    requires c.nextId == (c.issued + 1) % 0x1_0000_0000
    ensures After(c, xs).issued == c.issued + |xs|
    ensures After(c, xs).nextId == (c.issued + |xs| + 1) % 0x1_0000_0000
    ensures FreshConnection.nextId == 1 && FreshConnection.issued == 0
    decreases |xs|
  {
    if xs != [] {
      NextId(c.issued);
      AwaitShape(c.inbox + xs[0].arrivals, c.nextId, MAX_STALE);
      RequestsAreNumbered(Request(c, xs[0]).0, xs[1..]);
    }
  }

  lemma {:induction false} PairingAfter(c: Connection, xs: seq<Exchange>)
    requires c.nextId == IdOf(c.issued) && Honest(c.inbox, c.issued)
    requires forall k :: 0 <= k < |xs| ==> Honest(xs[k].arrivals, c.issued + k + 1)
    ensures var d := After(c, xs);
            d.issued == c.issued + |xs| && d.nextId == IdOf(d.issued) && Honest(d.inbox, d.issued)
    decreases |xs|
  {
    if xs != [] {
      assert Honest(xs[0].arrivals, c.issued + 0 + 1);
      RequestKeepsPairing(c, xs[0]);
      assert forall k :: 0 <= k < |xs[1..]| ==> xs[1..][k] == xs[k + 1];
      PairingAfter(Request(c, xs[0]).0, xs[1..]);
    }
  }

  /** Over a whole connection, as long as fewer than 2^32 requests precede it, every request that is
      answered returns the reply produced for that very request. */
  lemma EveryReplyIsItsOwn(xs: seq<Exchange>, k: nat)
    requires k < |xs| && k < 0x1_0000_0000 && xs[k].send.Sent?
    requires forall j :: 0 <= j < |xs| ==> Honest(xs[j].arrivals, j + 1)
    ensures var c := After(FreshConnection, xs[..k]);
            var a := Await(c.inbox + xs[k].arrivals, c.nextId, MAX_STALE);
            && Request(c, xs[k]).1 == a.result
            && (a.reply.Some? ==> a.reply.value.origin == k && a.result == ResultOf(a.reply.value))
  {
    assert FreshConnection.nextId == IdOf(0);
    forall j | 0 <= j < |xs[..k]|
      ensures Honest(xs[..k][j].arrivals, FreshConnection.issued + j + 1)
    {
      assert xs[..k][j] == xs[j];
    }
    PairingAfter(FreshConnection, xs[..k]);
    var c := After(FreshConnection, xs[..k]);
    HonestTogether(c.inbox, xs[k].arrivals, k, 0);
    ReplyBelongsToRequest(c.inbox + xs[k].arrivals, k);
  }

  // ---------------------------------------------------------------- the bridge

  datatype Operation =
    | Invalid                                          // refused before anything is sent
    | Single(exchange: Exchange)                       // motor, position and scan commands
    | Positions(exchanges: seq<Exchange>)              // one request per servo
    | Connect(samePeer: bool, check: Exchange, ready: bool, dialled: bool, setup: Exchange, setupReady: bool)

  /** Read positions one by one; failures that keep the connection are collected. */
  function ReadPositions(c: Connection, xs: seq<Exchange>): Option<Connection>
    decreases |xs|
  {
    if xs == [] then Some(c)
    else
      var (d, result) := Request(c, xs[0]);
      if result.Ok? || UsableAfter(Message(result.error)) then ReadPositions(d, xs[1..]) else None
  }

  /** The bridge after one browser request. */
  function Handle(bridge: Option<Connection>, op: Operation): Option<Connection> {
    match op
    case Invalid => bridge
    case Single(x) =>
      if bridge.None? then None
      else
        var (d, result) := Request(bridge.value, x);
        if result.Ok? || UsableAfter(Message(result.error)) then Some(d) else None
    case Positions(xs) =>
      if bridge.None? then None else ReadPositions(bridge.value, xs)
    case Connect(samePeer, check, ready, dialled, setup, setupReady) =>
      if bridge.Some? && samePeer && Request(bridge.value, check).1.Ok? && ready then
        Some(Request(bridge.value, check).0)
      else if dialled && Request(FreshConnection, setup).1.Ok? && setupReady then
        Some(Request(FreshConnection, setup).0)
      else None
  }

  function HandleAll(bridge: Option<Connection>, ops: seq<Operation>): Option<Connection>
    decreases |ops|
  {
    if ops == [] then bridge else HandleAll(Handle(bridge, ops[0]), ops[1..])
  }

  predicate NothingOpen(bridge: Option<Connection>) {
    bridge.Some? ==> bridge.value.open == {}
  }

  lemma {:induction false} PositionsAreSettled(c: Connection, xs: seq<Exchange>)
    requires c.open == {}
    ensures NothingOpen(ReadPositions(c, xs))
    decreases |xs|
  {
    if xs != [] {
      RequestIsSettled(c, xs[0]);
      var (d, result) := Request(c, xs[0]);
      if result.Ok? || UsableAfter(Message(result.error)) {
        PositionsAreSettled(d, xs[1..]);
      }
    }
  }

  lemma HandleSettles(bridge: Option<Connection>, op: Operation)
    requires NothingOpen(bridge)
    ensures NothingOpen(Handle(bridge, op))
  {
    match op
    case Invalid =>
    case Single(x) =>
      if bridge.Some? {
        RequestIsSettled(bridge.value, x);
      }
    case Positions(xs) =>
      if bridge.Some? {
        PositionsAreSettled(bridge.value, xs);
      }
    case Connect(_, check, _, _, setup, _) =>
      if bridge.Some? {
        RequestIsSettled(bridge.value, check);
      }
      RequestIsSettled(FreshConnection, setup);
  }

  /** A controller connection that is still held after any sequence of browser requests has no
      request waiting for its reply. */
  lemma {:induction false} RetainedConnectionIsSettled(bridge: Option<Connection>, ops: seq<Operation>)
    requires NothingOpen(bridge)
    ensures NothingOpen(HandleAll(bridge, ops))
    decreases |ops|
  {
    if ops != [] {
      HandleSettles(bridge, ops[0]);
      RetainedConnectionIsSettled(Handle(bridge, ops[0]), ops[1..]);
    }
  }

  /** The request ended in a way that may leave its reply on the way. */
  predicate EndsOpen(c: Connection, x: Exchange) {
    var result := Request(c, x).1;
    result.Err? && LeavesRequestOpen(result.error)
  }

  /** Position reads go on past every failure that leaves nothing open, and the connection is then the
      one behind all of them; otherwise it is dropped. */
  lemma {:induction false} PositionsKeepExactlyWhen(c: Connection, xs: seq<Exchange>)
    ensures ReadPositions(c, xs) ==
            if forall k :: 0 <= k < |xs| ==> !EndsOpen(After(c, xs[..k]), xs[k]) then Some(After(c, xs)) else None
    decreases |xs|
  {
    if xs != [] {
      var (d, result) := Request(c, xs[0]);
      assert After(c, xs[..0]) == c;
      if result.Err? {
        MessageDecidesConnection(result.error);
      }
      if EndsOpen(c, xs[0]) {
        assert EndsOpen(After(c, xs[..0]), xs[0]);
      } else {
        PositionsKeepExactlyWhen(d, xs[1..]);
        forall k | 0 <= k < |xs[1..]|
          ensures After(d, xs[1..][..k]) == After(c, xs[..k + 1]) && xs[1..][k] == xs[k + 1]
        {
          assert xs[..k + 1][1..] == xs[1..][..k] && xs[..k + 1][0] == xs[0];
        }
        ShiftedEnds(c, d, xs);
      }
    }
  }

  lemma ShiftedEnds(c: Connection, d: Connection, xs: seq<Exchange>)
    requires xs != [] && !EndsOpen(After(c, xs[..0]), xs[0])
    requires forall k :: 0 <= k < |xs[1..]| ==>
               After(d, xs[1..][..k]) == After(c, xs[..k + 1]) && xs[1..][k] == xs[k + 1]
    ensures (forall k :: 0 <= k < |xs| ==> !EndsOpen(After(c, xs[..k]), xs[k])) <==>
            (forall k :: 0 <= k < |xs[1..]| ==> !EndsOpen(After(d, xs[1..][..k]), xs[1..][k]))
  {
    if forall k :: 0 <= k < |xs| ==> !EndsOpen(After(c, xs[..k]), xs[k]) {
      forall k | 0 <= k < |xs[1..]|
        ensures !EndsOpen(After(d, xs[1..][..k]), xs[1..][k])
      {
        assert !EndsOpen(After(c, xs[..k + 1]), xs[k + 1]);
      }
    }
    if forall k :: 0 <= k < |xs[1..]| ==> !EndsOpen(After(d, xs[1..][..k]), xs[1..][k]) {
      forall k | 0 <= k < |xs|
        ensures !EndsOpen(After(c, xs[..k]), xs[k])
      {
        if k > 0 {
          assert !EndsOpen(After(d, xs[1..][..k - 1]), xs[1..][k - 1]);
        }
      }
    }
  }

  /** A request is left open exactly when it may have been sent and its reply was not read. */
  lemma OpenExactlyWhen(c: Connection, x: Exchange)
    requires c.nextId !in c.open
    ensures var (d, result) := Request(c, x);
            && d.open == (if EndsOpen(c, x) then c.open + {c.nextId} else c.open)
            && (EndsOpen(c, x) <==>
                  || x.send.TimedOut? || x.send.SendError?
                  || (x.send.Sent? && Await(c.inbox + x.arrivals, c.nextId, 32).reply.None?))
  {
    AwaitShape(c.inbox + x.arrivals, c.nextId, MAX_STALE);
  }

  /** A held bridge survives a command exactly when its request ends without leaving anything open, and
      is then the connection behind that request. */
  lemma SingleKeepsExactlyWhen(c: Connection, x: Exchange)
    ensures Handle(Some(c), Single(x)) == if EndsOpen(c, x) then None else Some(Request(c, x).0)
  {
    if Request(c, x).1.Err? {
      MessageDecidesConnection(Request(c, x).1.error);
    }
  }

  /** After connecting, a bridge is held exactly when the same peer answered ready on the old connection
      or the dialled peer did on a new one, whose next request is its second. */
  lemma ConnectHoldsExactlyWhen(
      bridge: Option<Connection>, samePeer: bool, check: Exchange, ready: bool, dialled: bool, setup: Exchange,
      setupReady: bool)
    ensures var after := Handle(bridge, Connect(samePeer, check, ready, dialled, setup, setupReady));
            var reused := bridge.Some? && samePeer && ready && Request(bridge.value, check).1.Ok?;
            var opened' := dialled && setupReady && Request(FreshConnection, setup).1.Ok?;
            && (after.Some? <==> reused || opened')
            && (reused ==> after == Some(Request(bridge.value, check).0))
            && (after.Some? && !reused ==> after.value.issued == 1 && after.value.nextId == 2)
  {
  }

  /** Without a bridge a command changes nothing, and a refused request never does. */
  lemma OtherwiseUnchanged(bridge: Option<Connection>, op: Operation)
    ensures op.Invalid? ==> Handle(bridge, op) == bridge
    ensures bridge.None? && !op.Connect? ==> Handle(bridge, op) == None
  {
  }

  // ---------------------------------------------------------------- the connection object

  class BridgeConnection {
    var nextRequestId: u32
    var inbox: seq<Incoming>

    constructor ()
      ensures nextRequestId == FreshConnection.nextId && inbox == FreshConnection.inbox
    {
      nextRequestId, inbox := 1, [];
    }

    method ControllerRequest(send: SendOutcome, arrivals: seq<Incoming>, ghost c: Connection)
      returns (r: Result<string, RpcError>)
      requires c.nextId == nextRequestId && c.inbox == inbox
      modifies this
      ensures var (d, result) := Request(c, Exchange(send, arrivals));
              r == result && nextRequestId == d.nextId && inbox == d.inbox
    {
      var id := nextRequestId;
      nextRequestId := (nextRequestId + 1) % ID_SPACE;
      if send.EncodeError? {
        return Err(EncodeFailed(send.detail));
      }
      if send.TimedOut? {
        return Err(SendTimedOut);
      }
      if send.SendError? {
        return Err(SendFailed(send.detail));
      }
      inbox := inbox + arrivals;
      r := AwaitReply(id);
    }

    method AwaitReply(id: u32) returns (r: Result<string, RpcError>)
      modifies this`inbox
      ensures var a := Await(old(inbox), id, MAX_STALE);
              a.consumed <= |old(inbox)| && r == a.result && inbox == old(inbox)[a.consumed..]
    {
      ghost var expected := Await(inbox, id, MAX_STALE);
      AwaitShape(inbox, id, MAX_STALE);
      var taken := 0;
      while taken < MAX_STALE
        invariant 0 <= taken <= MAX_STALE && taken <= |old(inbox)| && inbox == old(inbox)[taken..]
        invariant Await(inbox, id, MAX_STALE - taken).result == expected.result
        invariant Await(inbox, id, MAX_STALE - taken).consumed + taken == expected.consumed
      {
        if inbox == [] {
          return Err(ResponseTimedOut);
        }
        var message := inbox[0];
        inbox := inbox[1..];
        taken := taken + 1;
        var decision := Examine(message, id);
        if decision.Some? {
          return decision.value;
        }
      }
      r := Err(TooManyStale);
    }
  }
}
