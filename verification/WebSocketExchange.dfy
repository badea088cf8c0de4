/** Frames crossing between the firmware and its clients, in both directions. */
module WebSocketExchange {
  import opened Bytes
  import opened WebSocket
  import Utf8

  /** A masked client frame; `wide` selects the 16-bit length even where seven bits would do. */
  datatype ClientMessage = ClientMessage(opcode: byte, mask: seq<byte>, payload: seq<byte>, wide: bool)

  predicate Sendable(m: ClientMessage, capacity: nat) {
    && m.opcode < 0x10 && IsMask(m.mask)
    && |m.payload| <= capacity && |m.payload| < 0x1_0000
    && (m.wide || |m.payload| <= 125)
  }

  function ClientHeader(m: ClientMessage): seq<byte>
    requires Sendable(m, |m.payload|)
  {
    if m.wide then [0x80 + m.opcode, 0xfe, |m.payload| / 0x100, |m.payload| % 0x100]
    else [0x80 + m.opcode, 0x80 + |m.payload|]
  }

  /** The masking of a client: walk the payload and count along the mask. */
  function ClientMasked(mask: seq<byte>, payload: seq<byte>, index: nat): (r: seq<byte>)
    requires IsMask(mask)
    ensures |r| == |payload|
  {
    if payload == [] then []
    else [XorByte(payload[0], mask[index % 4])] + ClientMasked(mask, payload[1..], index + 1)
  }

  lemma {:induction false} ClientMaskedAt(mask: seq<byte>, payload: seq<byte>, index: nat, i: nat)
    requires IsMask(mask) && i < |payload|
    ensures ClientMasked(mask, payload, index)[i] == XorByte(payload[i], mask[(index + i) % 4])
  {
    if i > 0 {
      ClientMaskedAt(mask, payload[1..], index + 1, i - 1);
    }
  }

  /** Client and firmware mask alike. */
  lemma MaskingsAgree(mask: seq<byte>, payload: seq<byte>)
    requires IsMask(mask)
    ensures ClientMasked(mask, payload, 0) == Masked(mask, payload)
  {
    forall i | 0 <= i < |payload|
      ensures ClientMasked(mask, payload, 0)[i] == Masked(mask, payload)[i]
    {
      ClientMaskedAt(mask, payload, 0, i);
    }
  }

  function ClientFrame(m: ClientMessage): seq<byte>
    requires Sendable(m, |m.payload|)
  {
    ClientHeader(m) + (m.mask + ClientMasked(m.mask, m.payload, 0))
  }

  lemma FrameIsParsed(m: ClientMessage, rest: seq<byte>, capacity: nat)
    requires Sendable(m, capacity)
    ensures ParseFrame(ClientFrame(m) + rest, capacity) == Frame(m.opcode, m.payload, rest)
  {
    var header, body := ClientHeader(m), m.mask + ClientMasked(m.mask, m.payload, 0);
    var input := ClientFrame(m) + rest;
    assert input == header + (body + rest);
    assert input[0] == header[0] && input[1] == header[1];
    BodyIsParsed(m, rest);
    if m.wide {
      assert input[2..][0] == header[2] && input[2..][1] == header[3];
      assert input[2..][2..] == body + rest;
    } else {
      assert input[2..] == body + rest;
    }
  }

  lemma BodyIsParsed(m: ClientMessage, rest: seq<byte>)
    requires IsMask(m.mask)
    ensures var left := m.mask + ClientMasked(m.mask, m.payload, 0) + rest;
            && |left| == 4 + |m.payload| + |rest|
            && left[..4] == m.mask
            && Masked(m.mask, left[4..4 + |m.payload|]) == m.payload
            && left[4 + |m.payload|..] == rest
  {
    var left := m.mask + ClientMasked(m.mask, m.payload, 0) + rest;
    MaskingsAgree(m.mask, m.payload);
    assert left[4..4 + |m.payload|] == Masked(m.mask, m.payload);
    MaskingUndoesItself(m.mask, m.payload);
  }

  // ---------------------------------------------------------------- the bytes of a frame

  /** Where the mask of a frame starts, by its second byte. */
  function MaskAt(input: seq<byte>): nat
    requires |input| >= 2
  {
    if input[1] == 0xfe then 4 else 2
  }

  /** The payload length a header announces, in seven bits or big-endian in sixteen. */
  function Announced(input: seq<byte>): nat
    requires |input| >= 2 && 0x80 <= input[1] < 0xff && (input[1] == 0xfe ==> |input| >= 4)
  {
    if input[1] == 0xfe then 256 * (input[2] as int) + (input[3] as int) else input[1] - 0x80
  }

  /** A final frame without reserved bits, masked. */
  predicate HeaderIsGood(input: seq<byte>) {
    |input| >= 2 && 0x80 <= input[0] <= 0x8f && 0x80 <= input[1]
  }

  /** Whatever is parsed, byte by byte: opcode, length, payload under the mask, and the rest. */
  lemma FrameInBytes(input: seq<byte>, capacity: nat)
    requires ParseFrame(input, capacity).Frame?
    ensures HeaderIsGood(input) && input[1] < 0xff && (input[1] == 0xfe ==> |input| >= 4)
    ensures var f, h := ParseFrame(input, capacity), MaskAt(input);
            && input[0] == 0x80 + f.opcode && |f.payload| == Announced(input) <= capacity
            && |input| == h + 4 + |f.payload| + |f.rest| && f.rest == input[h + 4 + |f.payload|..]
            && forall i :: 0 <= i < |f.payload| ==> f.payload[i] == XorByte(input[h + 4 + i], input[h + i % 4])
  {
    var h := MaskAt(input);
    var left := input[h..];
    assert left == if input[1] == 0xfe then input[2..][2..] else input[2..];
    var n := Announced(input);
    assert left[..4] == input[h..h + 4] && left[4..4 + n] == input[h + 4..h + 4 + n];
    assert left[4 + n..] == input[h + 4 + n..];
  }

  /** And exactly when nothing is parsed, with the reason. */
  lemma RefusedExactlyWhen(input: seq<byte>, capacity: nat)
    ensures var r := ParseFrame(input, capacity);
            && (r.Refused? && r.error == InvalidFrame <==> |input| >= 2 && !HeaderIsGood(input))
            && (r.Refused? && r.error == MessageTooLarge <==>
                  HeaderIsGood(input) &&
                  (input[1] == 0xff || (|input| >= MaskAt(input) && Announced(input) > capacity)))
            && (r.Refused? && r.error == Closed <==>
                  || |input| < 2
                  || (HeaderIsGood(input) && input[1] < 0xff &&
                      (|input| < MaskAt(input) ||
                       (Announced(input) <= capacity && |input| < MaskAt(input) + 4 + Announced(input)))))
  {
  }

  /** What each kind of frame makes the firmware do. */
  lemma FrameDecides(opcode: byte, payload: seq<byte>, writable: nat)
    requires |payload| <= 125 && writable >= 2
    ensures var r := React(opcode, payload, writable);
            && r.answer == (if opcode == 1 then Some(if Utf8.Valid(payload) then Ok(payload) else Err(InvalidText))
                            else if opcode == 8 then Some(Err(Closed))
                            else if opcode == 9 || opcode == 10 then None
                            else Some(Err(InvalidFrame)))
            && r.written == (if opcode == 8 then [0x88, 0x00]
                             else if opcode == 9 then [0x8a, |payload|] + payload
                             else [])
  {
  }

  /** What is written for a frame is a prefix of it, and all of it exactly when no error is reported. */
  lemma WritesAPrefix(opcode: byte, payload: seq<byte>, writable: nat)
    requires opcode < 0x10
    ensures var w := WriteOutcome(opcode, payload, writable);
            && (|payload| >= 0x1_0000 <==> w.error == Some(MessageTooLarge))
            && (|payload| >= 0x1_0000 ==> w.bytes == [])
            && (|payload| < 0x1_0000 ==>
                  w.bytes <= ServerFrame(opcode, payload) &&
                  (w.error.None? <==> w.bytes == ServerFrame(opcode, payload)) && w.error in {None, Some(Io)} &&
                  |w.bytes| == (if writable == 0 then 0 else if |payload| <= 125 then 2 else 4)
                               + (if writable >= 2 then |payload| else 0))
  {
    if |payload| < 0x1_0000 && payload != [] {
      assert |ServerFrame(opcode, payload)| > |ServerHeader(opcode, |payload|)|;
    }
  }

  // ---------------------------------------------------------------- control frames, then text

  function Stream(ms: seq<ClientMessage>): seq<byte>
    requires forall m :: m in ms ==> Sendable(m, |m.payload|)
  {
    if ms == [] then [] else ClientFrame(ms[0]) + Stream(ms[1..])
  }

  /** Payloads of the pings, in order. */
  function Pings(ms: seq<ClientMessage>): seq<seq<byte>> {
    if ms == [] then []
    else (if ms[0].opcode == PING then [ms[0].payload] else []) + Pings(ms[1..])
  }

  /** One pong per payload, in order. */
  function Pongs(payloads: seq<seq<byte>>): seq<byte>
    requires forall p :: p in payloads ==> |p| < 0x1_0000
  {
    if payloads == [] then [] else ServerFrame(PONG, payloads[0]) + Pongs(payloads[1..])
  }

  /** Writes the pongs take. */
  function WritesForAll(payloads: seq<seq<byte>>): nat {
    if payloads == [] then 0 else WritesFor(payloads[0]) + WritesForAll(payloads[1..])
  }

  predicate IsControl(m: ClientMessage, capacity: nat) {
    Sendable(m, capacity) && (m.opcode == PING || m.opcode == PONG)
  }

  predicate ControlFrames(ms: seq<ClientMessage>, capacity: nat) {
    forall m :: m in ms ==> Sendable(m, capacity) && (m.opcode == PING || m.opcode == PONG)
  }

  lemma {:induction false} PingsAreSendable(ms: seq<ClientMessage>, capacity: nat)
    requires ControlFrames(ms, capacity)
    ensures forall p :: p in Pings(ms) ==> |p| < 0x1_0000
  {
    if ms != [] {
      PingsAreSendable(ms[1..], capacity);
    }
  }

  /** A frame that needs no answer to the caller hands over to the frames behind it. */
  lemma ReadGoesOn(input: seq<byte>, capacity: nat, writable: nat, parsed: Parsed, reaction: Reaction)
    requires parsed == ParseFrame(input, capacity) && parsed.Frame?
    requires reaction == React(parsed.opcode, parsed.payload, writable) && reaction.answer.None?
    ensures Continues(ReadOutcome(input, capacity, writable), reaction.written,
                      ReadOutcome(parsed.rest, capacity, reaction.writable))
  {
  }

  /** What a control frame makes the firmware write, and how many writes that takes. */
  function Reply(m: ClientMessage): seq<byte>
    requires |m.payload| < 0x1_0000
  {
    if m.opcode == PING then ServerFrame(PONG, m.payload) else []
  }

  function Cost(m: ClientMessage): nat {
    if m.opcode == PING then WritesFor(m.payload) else 0
  }

  lemma ControlFrameReaction(m: ClientMessage, writable: nat)
    requires (m.opcode == PING || m.opcode == PONG) && |m.payload| < 0x1_0000 && writable >= Cost(m)
    ensures React(m.opcode, m.payload, writable) == Reaction(None, Reply(m), writable - Cost(m))
  {
  }

  lemma ControlFrameIsAnswered(m: ClientMessage, rest: seq<byte>, capacity: nat, writable: nat, input: seq<byte>)
    requires (m.opcode == PING || m.opcode == PONG) && |m.payload| < 0x1_0000 && writable >= Cost(m)
    requires ParseFrame(input, capacity) == Frame(m.opcode, m.payload, rest)
    ensures Continues(ReadOutcome(input, capacity, writable), Reply(m),
                      ReadOutcome(rest, capacity, writable - Cost(m)))
  {
    ControlFrameReaction(m, writable);
    ReadGoesOn(input, capacity, writable, Frame(m.opcode, m.payload, rest),
               Reaction(None, Reply(m), writable - Cost(m)));
  }

  lemma TextFrameIsReturned(m: ClientMessage, rest: seq<byte>, capacity: nat, writable: nat)
    requires Sendable(m, capacity) && m.opcode == TEXT && Utf8.Valid(m.payload)
    ensures ReadOutcome(ClientFrame(m) + rest, capacity, writable) == Outcome(Ok(m.payload), rest, [], writable)
  {
    FrameIsParsed(m, rest, capacity);
  }

  // ---------------------------------------------------------------- reading past frames

  /** A frame the reader gets past: its bytes, what is written for it, and the writes that takes. */
  datatype Passage = Passage(frame: seq<byte>, reply: seq<byte>, cost: nat)

  function Frames(xs: seq<Passage>): seq<byte> {
    if xs == [] then [] else xs[0].frame + Frames(xs[1..])
  }

  function Replies(xs: seq<Passage>): seq<byte> {
    if xs == [] then [] else xs[0].reply + Replies(xs[1..])
  }

  function Costs(xs: seq<Passage>): nat {
    if xs == [] then 0 else xs[0].cost + Costs(xs[1..])
  }

  type Reader = (seq<byte>, nat) -> Outcome

  /** Whatever bytes follow the frame, the reader goes on with them. */
  ghost predicate GoesPast(read: Reader, x: Passage) {
    forall next: seq<byte>, writable: nat :: writable >= x.cost ==>
      Continues(read(x.frame + next, writable), x.reply, read(next, writable - x.cost))
  }

  /** A reader that gets past each frame gets past all of them and writes their replies in order. */
  lemma {:induction false} GoesPastAll(read: Reader, xs: seq<Passage>, tail: seq<byte>, writable: nat)
    requires forall x :: x in xs ==> GoesPast(read, x)
    requires writable >= Costs(xs)
    ensures Continues(read(Frames(xs) + tail, writable), Replies(xs), read(tail, writable - Costs(xs)))
  {
    if xs == [] {
      assert Frames(xs) + tail == tail;
    } else {
      var first, later := xs[0], xs[1..];
      var next, left := Frames(later) + tail, writable - first.cost;
      assert Frames(xs) + tail == first.frame + next;
      assert GoesPast(read, first);
      GoesPastAll(read, later, tail, left);
      OutputsChain(read(first.frame + next, writable), first.reply, read(next, left),
                   Replies(later), read(tail, left - Costs(later)));
    }
  }

  lemma OutputsChain(whole: Outcome, first: seq<byte>, middle: Outcome, second: seq<byte>, left: Outcome)
    requires Continues(whole, first, middle) && Continues(middle, second, left)
    ensures Continues(whole, first + second, left)
  {
    assert first + (second + left.written) == (first + second) + left.written;
  }

  /** `read_text` with a buffer of this size. */
  function ReadText(capacity: nat): Reader {
    (input: seq<byte>, writable: nat) => ReadOutcome(input, capacity, writable)
  }

  function PassageOf(m: ClientMessage): Passage
    requires Sendable(m, |m.payload|)
  {
    Passage(ClientFrame(m), Reply(m), Cost(m))
  }

  function Passages(ms: seq<ClientMessage>): seq<Passage>
    requires forall m :: m in ms ==> Sendable(m, |m.payload|)
  {
    if ms == [] then [] else [PassageOf(ms[0])] + Passages(ms[1..])
  }

  /** A reader that gets past every control frame within its buffer. */
  ghost predicate AnswersControl(read: Reader, capacity: nat) {
    forall m: ClientMessage, next: seq<byte>, writable: nat ::
      IsControl(m, capacity) && writable >= Cost(m) ==>
        Continues(read(ClientFrame(m) + next, writable), Reply(m), read(next, writable - Cost(m)))
  }

  lemma ReadTextAnswersControl(capacity: nat)
    ensures AnswersControl(ReadText(capacity), capacity)
  {
    forall m: ClientMessage, next: seq<byte>, writable: nat | IsControl(m, capacity) && writable >= Cost(m)
      ensures Continues(ReadOutcome(ClientFrame(m) + next, capacity, writable), Reply(m),
                        ReadOutcome(next, capacity, writable - Cost(m)))
    {
      ControlFrameIsRead(m, next, capacity, writable);
    }
  }

  lemma ControlFrameIsRead(m: ClientMessage, next: seq<byte>, capacity: nat, writable: nat)
    requires IsControl(m, capacity) && writable >= Cost(m)
    ensures Continues(ReadOutcome(ClientFrame(m) + next, capacity, writable), Reply(m),
                      ReadOutcome(next, capacity, writable - Cost(m)))
  {
    FrameIsParsed(m, next, capacity);
    ControlFrameIsAnswered(m, next, capacity, writable, ClientFrame(m) + next);
  }

  lemma AnswererGoesPast(read: Reader, capacity: nat, m: ClientMessage)
    requires AnswersControl(read, capacity) && IsControl(m, capacity)
    ensures GoesPast(read, PassageOf(m))
  {
  }

  lemma {:induction false} ControlFramesArePassages(
      read: Reader, ms: seq<ClientMessage>, capacity: nat, x: Passage)
    requires AnswersControl(read, capacity) && ControlFrames(ms, capacity) && x in Passages(ms)
    ensures GoesPast(read, x)
  {
    if x == PassageOf(ms[0]) {
      AnswererGoesPast(read, capacity, ms[0]);
    } else {
      ControlFramesArePassages(read, ms[1..], capacity, x);
    }
  }

  lemma {:induction false} PassagesSum(ms: seq<ClientMessage>, capacity: nat)
    requires ControlFrames(ms, capacity)
    ensures forall p :: p in Pings(ms) ==> |p| < 0x1_0000
    ensures Frames(Passages(ms)) == Stream(ms) && Replies(Passages(ms)) == Pongs(Pings(ms))
    ensures Costs(Passages(ms)) == WritesForAll(Pings(ms))
  {
    PingsAreSendable(ms, capacity);
    if ms != [] {
      assert Passages(ms)[1..] == Passages(ms[1..]);
      PassagesSum(ms[1..], capacity);
      PingsStep(ms, capacity);
    }
  }

  lemma EndsBehindPassages(read: Reader, xs: seq<Passage>, tail: seq<byte>, writable: nat, end: Outcome)
    requires forall x :: x in xs ==> GoesPast(read, x)
    requires writable >= Costs(xs) && read(tail, writable - Costs(xs)) == end
    ensures Continues(read(Frames(xs) + tail, writable), Replies(xs), end)
  {
    GoesPastAll(read, xs, tail, writable);
  }

  /** What the reader makes of the bytes behind the control frames is what it makes of the whole, but
      for the pongs. */
  lemma EndsBehind(
      read: Reader, capacity: nat, ms: seq<ClientMessage>, xs: seq<Passage>, tail: seq<byte>, writable: nat,
      end: Outcome)
    requires AnswersControl(read, capacity) && ControlFrames(ms, capacity) && xs == Passages(ms)
    requires writable >= Costs(xs) && read(tail, writable - Costs(xs)) == end
    ensures Continues(read(Frames(xs) + tail, writable), Replies(xs), end)
  {
    forall x | x in xs
      ensures GoesPast(read, x)
    {
      ControlFramesArePassages(read, ms, capacity, x);
    }
    EndsBehindPassages(read, xs, tail, writable, end);
  }

  /** Over any number of pings and pongs within the buffer, such a reader does what the bytes behind
      them alone would make it do, having consumed those frames and written one pong with the same
      payload per ping, in order. */
  lemma ControlFramesArePassed(
      read: Reader, capacity: nat, ms: seq<ClientMessage>, tail: seq<byte>, writable: nat)
    requires AnswersControl(read, capacity) && ControlFrames(ms, capacity)
    requires writable >= WritesForAll(Pings(ms))
    ensures (forall p :: p in Pings(ms) ==> |p| < 0x1_0000) &&
            Continues(read(Stream(ms) + tail, writable), Pongs(Pings(ms)),
                      read(tail, writable - WritesForAll(Pings(ms))))
  {
    PassagesSum(ms, capacity);
    EndsBehind(read, capacity, ms, Passages(ms), tail, writable, read(tail, writable - WritesForAll(Pings(ms))));
  }

  /** A frame that answers the caller ends the call. */
  lemma FinalFrameIsReturned(m: ClientMessage, rest: seq<byte>, capacity: nat, writable: nat, reaction: Reaction)
    requires Sendable(m, capacity) && reaction == React(m.opcode, m.payload, writable) && reaction.answer.Some?
    ensures ReadOutcome(ClientFrame(m) + rest, capacity, writable) ==
            Outcome(reaction.answer.value, rest, reaction.written, reaction.writable)
  {
    FrameIsParsed(m, rest, capacity);
  }

  /** In particular a text message is returned. */
  lemma TextBehindControlFrames(
      ms: seq<ClientMessage>, text: ClientMessage, rest: seq<byte>, capacity: nat, writable: nat)
    requires ControlFrames(ms, capacity)
    requires Sendable(text, capacity) && text.opcode == 1 && Utf8.Valid(text.payload)
    requires writable >= WritesForAll(Pings(ms))
    ensures (forall p :: p in Pings(ms) ==> |p| < 0x1_0000) &&
            ReadOutcome(Stream(ms) + (ClientFrame(text) + rest), capacity, writable) ==
            Outcome(Ok(text.payload), rest, Pongs(Pings(ms)), writable - WritesForAll(Pings(ms)))
  {
    var left := writable - WritesForAll(Pings(ms));
    ReadTextAnswersControl(capacity);
    TextFrameIsReturned(text, rest, capacity, left);
    PassagesSum(ms, capacity);
    EndsBehind(ReadText(capacity), capacity, ms, Passages(ms), ClientFrame(text) + rest, writable,
               Outcome(Ok(text.payload), rest, [], left));
    assert Pongs(Pings(ms)) + [] == Pongs(Pings(ms));
  }

  /** A close frame is answered with an empty one and ends the session. */
  lemma CloseFrameIsReturned(m: ClientMessage, rest: seq<byte>, capacity: nat, writable: nat)
    requires Sendable(m, capacity) && m.opcode == 8 && writable >= 1
    ensures ReadOutcome(ClientFrame(m) + rest, capacity, writable) ==
            Outcome(Err(Closed), rest, [0x88, 0x00], writable - 1)
  {
    FinalFrameIsReturned(m, rest, capacity, writable, Reaction(Some(Err(Closed)), [0x88, 0x00], writable - 1));
  }

  lemma PingsStep(ms: seq<ClientMessage>, capacity: nat)
    requires ms != [] && ControlFrames(ms, capacity)
    requires forall p :: p in Pings(ms) ==> |p| < 0x1_0000
    ensures forall p :: p in Pings(ms[1..]) ==> |p| < 0x1_0000
    ensures WritesForAll(Pings(ms)) == Cost(ms[0]) + WritesForAll(Pings(ms[1..]))
    ensures Pongs(Pings(ms)) == Reply(ms[0]) + Pongs(Pings(ms[1..]))
  {
    if ms[0].opcode == PING {
      assert Pings(ms)[1..] == Pings(ms[1..]);
    } else {
      assert Pings(ms) == Pings(ms[1..]);
    }
  }

  // ---------------------------------------------------------------- the client side

  /** `send_text`: only short messages, always with the seven-bit length. */
  function SendText(payload: seq<byte>, mask: seq<byte>): Option<seq<byte>>
    requires IsMask(mask)
  {
    if |payload| >= 126 then None
    else Some([0x81, 0x80 + |payload|] + mask + ClientMasked(mask, payload, 0))
  }

  lemma SentTextIsRead(payload: seq<byte>, mask: seq<byte>, rest: seq<byte>, capacity: nat, writable: nat)
    requires IsMask(mask) && Utf8.Valid(payload) && |payload| <= capacity
    requires SendText(payload, mask).Some?
    ensures ReadOutcome(SendText(payload, mask).value + rest, capacity, writable) ==
            Outcome(Ok(payload), rest, [], writable)
  {
    var m := ClientMessage(TEXT, mask, payload, false);
    assert SendText(payload, mask).value == ClientFrame(m);
    TextFrameIsReturned(m, rest, capacity, writable);
  }

  datatype Received = Received(opcode: byte, payload: seq<byte>, rest: seq<byte>)

  function Take(input: seq<byte>, opcode: byte, length: nat): Option<Received> {
    if |input| < length then None else Some(Received(opcode, input[..length], input[length..]))
  }

  function Big(bytes: seq<byte>): nat {
    if bytes == [] then 0 else Big(bytes[..|bytes| - 1]) * 0x100 + bytes[|bytes| - 1]
  }

  /** `first & 0x0f` and `second & 0x7f`. */
  function LowNibble(b: byte): byte {
    b % 0x10
  }

  function Unmarked(b: byte): byte {
    if b < 0x80 then b else b - 0x80
  }

  lemma OpcodeOf(opcode: byte)
    requires opcode < 0x10
    ensures LowNibble(0x80 + opcode) == opcode
  {
  }

  /** `receive_frame`; no value means the connection closed first. */
  function ReceiveFrame(input: seq<byte>): Option<Received> {
    if |input| < 2 then None
    else
      var opcode, length, rest := LowNibble(input[0]), Unmarked(input[1]), input[2..];
      if length == 126 then
        if |rest| < 2 then None else Take(rest[2..], opcode, Big(rest[..2]))
      else if length == 127 then
        if |rest| < 8 then None else Take(rest[8..], opcode, Big(rest[..8]))
      else Take(rest, opcode, length)
  }

  /** Every frame the firmware writes is read back exactly by the client. */
  lemma ServerFrameIsReceived(opcode: byte, payload: seq<byte>, rest: seq<byte>)
    requires opcode < 0x10 && |payload| < 0x1_0000
    ensures ReceiveFrame(ServerFrame(opcode, payload) + rest) == Some(Received(opcode, payload, rest))
  {
    var header := ServerHeader(opcode, |payload|);
    var input := ServerFrame(opcode, payload) + rest;
    assert input == header + (payload + rest);
    assert input[0] == header[0] && input[1] == header[1];
    OpcodeOf(opcode);
    assert (payload + rest)[..|payload|] == payload && (payload + rest)[|payload|..] == rest;
    if |payload| <= 125 {
      assert input[2..] == payload + rest;
    } else {
      var length := input[2..][..2];
      assert length == [header[2], header[3]];
      assert length[..1] == [header[2]] && length[..1][..0] == [];
      assert Big(length[..1]) == header[2];
      assert input[2..][2..] == payload + rest;
    }
  }

  /** Frames received one after the other. */
  function ReceiveMany(input: seq<byte>, n: nat): Option<seq<(byte, seq<byte>)>>
    decreases n
  {
    if n == 0 then Some([])
    else
      match ReceiveFrame(input)
      case None => None
      case Some(frame) =>
        match ReceiveMany(frame.rest, n - 1)
        case None => None
        case Some(later) => Some([(frame.opcode, frame.payload)] + later)
  }

  lemma ReceiveStep(input: seq<byte>, frame: Received, n: nat, later: seq<(byte, seq<byte>)>)
    requires ReceiveFrame(input) == Some(frame) && ReceiveMany(frame.rest, n) == Some(later)
    ensures ReceiveMany(input, n + 1) == Some([(frame.opcode, frame.payload)] + later)
  {
  }

  function AsPongs(payloads: seq<seq<byte>>): seq<(byte, seq<byte>)> {
    seq(|payloads|, i requires 0 <= i < |payloads| => (PONG, payloads[i]))
  }

  lemma PongsStep(payloads: seq<seq<byte>>, rest: seq<byte>)
    requires payloads != [] && forall p :: p in payloads ==> |p| < 0x1_0000
    ensures Pongs(payloads) + rest == ServerFrame(PONG, payloads[0]) + (Pongs(payloads[1..]) + rest)
    ensures AsPongs(payloads) == [(PONG, payloads[0])] + AsPongs(payloads[1..])
  {
  }

  /** The client sees exactly its ping payloads come back, as pongs and in order. */
  lemma {:induction false} PongsAreReceived(payloads: seq<seq<byte>>, rest: seq<byte>)
    requires forall p :: p in payloads ==> |p| < 0x1_0000
    ensures ReceiveMany(Pongs(payloads) + rest, |payloads|) == Some(AsPongs(payloads))
  {
    if payloads == [] {
      assert AsPongs(payloads) == [];
    } else {
      var later := payloads[1..];
      PongsStep(payloads, rest);
      ServerFrameIsReceived(PONG, payloads[0], Pongs(later) + rest);
      PongsAreReceived(later, rest);
      ReceiveStep(Pongs(payloads) + rest, Received(PONG, payloads[0], Pongs(later) + rest), |later|, AsPongs(later));
    }
  }
}
