/**
WebSocket frames (sections 5.2, 5.3 and 5.5 of RFC 6455): the firmware's reader and writer, and the
client codec of the takeover check. A socket is its unread input, the bytes written so far, and how
many more writes the transport accepts.
*/
module WebSocket {
  import opened Bytes
  import Utf8

  datatype Error = Closed | Io | InvalidFrame | MessageTooLarge | InvalidText

  const TEXT: byte := 0x01
  const CLOSE: byte := 0x08
  const PING: byte := 0x09
  const PONG: byte := 0x0a

  // ---------------------------------------------------------------- masking

  predicate IsMask(mask: seq<byte>) {
    |mask| == 4
  }

  /** Apply a four-byte mask; the same call takes it off again. */
  function Masked(mask: seq<byte>, s: seq<byte>): (r: seq<byte>)
    requires IsMask(mask)
    ensures |r| == |s|
  {
    seq(|s|, i requires 0 <= i < |s| => XorByte(s[i], mask[i % 4]))
  }

  lemma MaskingUndoesItself(mask: seq<byte>, s: seq<byte>)
    requires IsMask(mask)
    ensures Masked(mask, Masked(mask, s)) == s
  {
    forall i | 0 <= i < |s|
      ensures Masked(mask, Masked(mask, s))[i] == s[i]
    {
      XorUndoes(s[i], mask[i % 4]);
    }
  }

  /** Byte `i` is combined with byte `i` modulo 4 of the mask and with nothing else, so the mask can be
      read off wherever the payload is known. */
  lemma MaskShowsThrough(mask: seq<byte>, s: seq<byte>, i: nat)
    requires IsMask(mask) && i < |s|
    ensures XorByte(Masked(mask, s)[i], s[i]) == mask[i % 4]
    ensures s[i] == 0 ==> Masked(mask, s)[i] == mask[i % 4]
  {
    XorCommutes(s[i], mask[i % 4]);
    XorUndoes(mask[i % 4], s[i]);
  }

  // ---------------------------------------------------------------- one frame

  datatype Parsed =
    | Frame(opcode: byte, payload: seq<byte>, rest: seq<byte>)
    | Refused(error: Error, rest: seq<byte>)

  /** The payload length behind the second header byte, and the input left. */
  function PayloadLength(first: byte, input: seq<byte>): Result<(nat, seq<byte>), Error> {
    if first <= 125 then Ok((first, input))
    else if first == 126 then
      if |input| < 2 then Err(Closed)
      else Ok(((input[0] as int) * 0x100 + (input[1] as int), input[2..]))
    else Err(MessageTooLarge)
  }

  /** One masked client frame from the input, for a buffer of `capacity` bytes. */
  function ParseFrame(input: seq<byte>, capacity: nat): (r: Parsed)
    ensures |r.rest| <= |input| && (r.Frame? ==> |r.rest| < |input|)
  {
    if |input| < 2 then Refused(Closed, [])
    else
      var first, second, rest := input[0], input[1], input[2..];
      // Final fragment with clear reserved bits leaves 0x80 to 0x8f; the mask bit is 0x80.
      if !(0x80 <= first <= 0x8f) || second < 0x80 then Refused(InvalidFrame, rest)
      else
        match PayloadLength(second - 0x80, rest)
        case Err(error) => Refused(error, if error.Closed? then [] else rest)
        case Ok((length, rest)) =>
          if length > capacity then Refused(MessageTooLarge, rest)
          else if |rest| < 4 + length then Refused(Closed, [])
          else Frame(first - 0x80, Masked(rest[..4], rest[4..4 + length]), rest[4 + length..])
  }

  // ---------------------------------------------------------------- writing

  function ServerHeader(opcode: byte, length: nat): seq<byte>
    requires opcode < 0x10 && length < 0x1_0000
  {
    if length <= 125 then [0x80 + opcode, length]
    else [0x80 + opcode, 126, length / 0x100, length % 0x100]
  }

  function ServerFrame(opcode: byte, payload: seq<byte>): seq<byte>
    requires opcode < 0x10 && |payload| < 0x1_0000
  {
    ServerHeader(opcode, |payload|) + payload
  }

  datatype Written = Written(bytes: seq<byte>, writable: nat, error: Option<Error>)

  /** Writes a frame takes: header and payload; writing no bytes never reaches the transport. */
  function WritesFor(payload: seq<byte>): nat {
    if payload == [] then 1 else 2
  }

  /** Either write may fail. */
  function WriteOutcome(opcode: byte, payload: seq<byte>, writable: nat): Written
    requires opcode < 0x10
  {
    if |payload| >= 0x1_0000 then Written([], writable, Some(MessageTooLarge))
    else if writable == 0 then Written([], 0, Some(Io))
    else if writable < WritesFor(payload) then Written(ServerHeader(opcode, |payload|), 0, Some(Io))
    else Written(ServerFrame(opcode, payload), writable - WritesFor(payload), None)
  }

  // ---------------------------------------------------------------- reading a message

  datatype Outcome = Outcome(result: Result<seq<byte>, Error>, rest: seq<byte>, written: seq<byte>, writable: nat)

  /** What one frame makes the server write, and the answer if the frame ends the call. */
  datatype Reaction = Reaction(answer: Option<Result<seq<byte>, Error>>, written: seq<byte>, writable: nat)

  function React(opcode: byte, payload: seq<byte>, writable: nat): Reaction {
    if opcode == TEXT then
      Reaction(Some(if Utf8.Valid(payload) then Ok(payload) else Err(InvalidText)), [], writable)
    else if opcode == CLOSE then
      var w := WriteOutcome(CLOSE, [], writable);
      Reaction(Some(Err(w.error.GetOr(Closed))), w.bytes, w.writable)
    else if opcode == PING then
      var w := WriteOutcome(PONG, payload, writable);
      Reaction(if w.error.Some? then Some(Err(w.error.value)) else None, w.bytes, w.writable)
    else if opcode == PONG then Reaction(None, [], writable)
    else Reaction(Some(Err(InvalidFrame)), [], writable)
  }

  /** What `read_text` returns, leaves unread and writes. */
  function ReadOutcome(input: seq<byte>, capacity: nat, writable: nat): Outcome
    decreases |input|
  {
    match ParseFrame(input, capacity)
    case Refused(error, rest) => Outcome(Err(error), rest, [], writable)
    case Frame(opcode, payload, rest) =>
      var reaction := React(opcode, payload, writable);
      if reaction.answer.Some? then
        Outcome(reaction.answer.value, rest, reaction.written, reaction.writable)
      else
        var next := ReadOutcome(rest, capacity, reaction.writable);
        next.(written := reaction.written + next.written)
  }

  /** Going on with `left` after `done` was written amounts to `whole`. */
  predicate Continues(whole: Outcome, done: seq<byte>, left: Outcome) {
    whole == left.(written := done + left.written)
  }

  /** The outcome including everything written before. */
  function WithOutput(left: Outcome, output: seq<byte>): Outcome {
    left.(written := output + left.written)
  }

  lemma OutputMoves(before: Outcome, written: seq<byte>, left: Outcome, output: seq<byte>)
    requires Continues(before, written, left)
    ensures WithOutput(left, output + written) == WithOutput(before, output)
  {
    assert (output + written) + left.written == output + (written + left.written);
  }

  class Socket {
    var input: seq<byte>
    var output: seq<byte>
    var writable: nat

    constructor (input: seq<byte>, writable: nat)
      ensures this.input == input && output == [] && this.writable == writable
    {
      this.input, output, this.writable := input, [], writable;
    }

    method ReadExact(n: nat) returns (r: Result<seq<byte>, Error>)
      modifies this`input
      ensures |old(input)| < n ==> r == Err(Closed) && input == []
      ensures n <= |old(input)| ==> r == Ok(old(input)[..n]) && input == old(input)[n..]
    {
      if |input| < n {
        input := [];
        return Err(Closed);
      }
      r := Ok(input[..n]);
      input := input[n..];
    }

    method WriteAll(bytes: seq<byte>) returns (ok: bool)
      modifies this`output, this`writable
      ensures ok == (bytes == [] || old(writable) > 0)
      ensures ok ==> output == old(output) + bytes && writable == old(writable) - (if bytes == [] then 0 else 1)
      ensures !ok ==> output == old(output) && writable == 0
    {
      ok := bytes == [] || writable > 0;
      if ok && bytes != [] {
        output := output + bytes;
        writable := writable - 1;
      }
    }

    method WriteFrame(opcode: byte, payload: seq<byte>) returns (error: Option<Error>)
      requires opcode < 0x10
      modifies this`output, this`writable
      ensures var w := WriteOutcome(opcode, payload, old(writable));
              error == w.error && output == old(output) + w.bytes && writable == w.writable
    {
      var header := new byte[4](_ => 0);
      header[0] := 0x80 + opcode;
      var headerLen;
      if |payload| <= 125 {
        header[1] := |payload|;
        headerLen := 2;
      } else if |payload| < 0x1_0000 {
        header[1] := 126;
        header[2], header[3] := |payload| / 0x100, |payload| % 0x100;
        headerLen := 4;
      } else {
        return Some(MessageTooLarge);
      }
      assert header[..headerLen] == ServerHeader(opcode, |payload|);
      ghost var before := output;
      var ok := WriteAll(header[..headerLen]);
      if !ok {
        return Some(Io);
      }
      ok := WriteAll(payload);
      if !ok {
        return Some(Io);
      }
      assert output == before + ServerFrame(opcode, payload);
      error := None;
    }

    method ReadPayloadLen(first: byte) returns (r: Result<nat, Error>)
      modifies this`input
      ensures match PayloadLength(first, old(input))
              case Ok((length, rest)) => r == Ok(length) && input == rest
              case Err(error) => r == Err(error) && input == if error.Closed? then [] else old(input)
    {
      if first <= 125 {
        return Ok(first);
      }
      if first == 126 {
        var bytes := ReadExact(2);
        if bytes.Err? {
          return Err(bytes.error);
        }
        return Ok((bytes.value[0] as int) * 0x100 + (bytes.value[1] as int));
      }
      r := Err(MessageTooLarge);
    }

    /** The fixed header and the length: opcode and payload length, if both are acceptable. */
    method ReadHeader() returns (r: Result<(byte, nat), Error>)
      modifies this`input
      ensures var i := old(input);
              if |i| < 2 then r == Err(Closed) && input == []
              else if !(0x80 <= i[0] <= 0x8f) || i[1] < 0x80 then r == Err(InvalidFrame) && input == i[2..]
              else
                match PayloadLength(i[1] - 0x80, i[2..])
                case Ok((length, rest)) => r == Ok((i[0] - 0x80, length)) && input == rest
                case Err(error) => r == Err(error) && input == if error.Closed? then [] else i[2..]
    {
      var header := ReadExact(2);
      if header.Err? {
        return Err(header.error);
      }
      var first, second := header.value[0], header.value[1];
      if !(0x80 <= first <= 0x8f) || second < 0x80 {
        return Err(InvalidFrame);
      }
      var length := ReadPayloadLen(second - 0x80);
      if length.Err? {
        return Err(length.error);
      }
      r := Ok((first - 0x80, length.value));
    }

    /** The mask and `n` bytes behind it. */
    method ReadMasked(n: nat) returns (r: Result<(seq<byte>, seq<byte>), Error>)
      modifies this`input
      ensures |old(input)| < 4 + n ==> r == Err(Closed) && input == []
      ensures |old(input)| >= 4 + n ==>
                r == Ok((old(input)[..4], old(input)[4..4 + n])) && input == old(input)[4 + n..]
    {
      ghost var body := input;
      var mask := ReadExact(4);
      if mask.Err? {
        return Err(mask.error);
      }
      var data := ReadExact(n);
      if data.Err? {
        return Err(data.error);
      }
      assert data.value == body[4..4 + n] && input == body[4 + n..];
      r := Ok((mask.value, data.value));
    }

    /** Mask and payload, unmasked in place in the buffer. */
    method ReadBody(buffer: array<byte>, n: nat) returns (r: Result<(), Error>)
      requires buffer as object != this && n <= buffer.Length
      modifies this`input, buffer
      ensures |old(input)| < 4 + n ==> r == Err(Closed) && input == []
      ensures |old(input)| >= 4 + n ==>
                r == Ok(()) && input == old(input)[4 + n..] &&
                buffer[..n] == Masked(old(input)[..4], old(input)[4..4 + n])
    {
      var body := ReadMasked(n);
      if body.Err? {
        return Err(body.error);
      }
      var (mask, data) := body.value;
      CopySlice(buffer, 0, data);
      SpliceParts(old(buffer[..]), 0, data);
      assert buffer[..n] == buffer[..][..n] == data;
      Unmask(buffer, mask, data);
      r := Ok(());
    }

    /** Reads one frame into the buffer. */
    method ReadFrame(buffer: array<byte>) returns (r: Result<(byte, nat), Error>)
      requires buffer as object != this
      modifies this`input, buffer
      ensures match ParseFrame(old(input), buffer.Length)
              case Frame(opcode, payload, rest) =>
                && r == Ok((opcode, |payload|)) && |payload| <= buffer.Length
                && buffer[..|payload|] == payload && input == rest
              case Refused(error, rest) => r == Err(error) && input == rest
    {
      var header := ReadHeader();
      if header.Err? {
        return Err(header.error);
      }
      var (opcode, n) := header.value;
      if n > buffer.Length {
        return Err(MessageTooLarge);
      }
      var body := ReadBody(buffer, n);
      if body.Err? {
        return Err(body.error);
      }
      r := Ok((opcode, n));
    }

    method HandleFrame(opcode: byte, payload: seq<byte>) returns (answer: Option<Result<seq<byte>, Error>>)
      modifies this`output, this`writable
      ensures var reaction := React(opcode, payload, old(writable));
              answer == reaction.answer && writable == reaction.writable &&
              output == old(output) + reaction.written
    {
      if opcode == TEXT {
        answer := Some(if Utf8.Valid(payload) then Ok(payload) else Err(InvalidText));
      } else if opcode == CLOSE {
        var error := WriteFrame(CLOSE, []);
        answer := Some(Err(error.GetOr(Closed)));
      } else if opcode == PING {
        var error := WriteFrame(PONG, payload);
        answer := if error.Some? then Some(Err(error.value)) else None;
      } else if opcode == PONG {
        answer := None;
      } else {
        answer := Some(Err(InvalidFrame));
      }
    }

    /** One turn of the loop in `read_text`; no answer means the loop goes on. */
    method ReadStep(buffer: array<byte>)
      returns (answer: Option<Result<seq<byte>, Error>>, ghost written: seq<byte>, ghost left: Outcome)
      requires buffer as object != this
      modifies this, buffer
      ensures output == old(output) + written
      ensures Continues(ReadOutcome(old(input), buffer.Length, old(writable)), written, left)
      ensures answer.Some? ==> left == Outcome(answer.value, input, [], writable)
      ensures answer.None? ==>
                |input| < |old(input)| && left == ReadOutcome(input, buffer.Length, writable)
    {
      var frame := ReadFrame(buffer);
      if frame.Err? {
        return Some(Err(frame.error)), [], Outcome(Err(frame.error), input, [], writable);
      }
      var (opcode, n) := frame.value;
      written := React(opcode, buffer[..n], writable).written;
      answer := HandleFrame(opcode, buffer[..n]);
      left := if answer.Some? then Outcome(answer.value, input, [], writable)
              else ReadOutcome(input, buffer.Length, writable);
    }

    method ReadText(buffer: array<byte>) returns (r: Result<seq<byte>, Error>)
      requires buffer as object != this
      modifies this, buffer
      ensures var o := ReadOutcome(old(input), buffer.Length, old(writable));
              r == o.result && input == o.rest && writable == o.writable &&
              output == old(output) + o.written
    {
      ghost var left := ReadOutcome(input, buffer.Length, writable);
      ghost var total := WithOutput(left, output);
      var answer := None;
      while answer.None?
        invariant answer.None? ==> left == ReadOutcome(input, buffer.Length, writable)
        invariant answer.Some? ==> left == Outcome(answer.value, input, [], writable)
        invariant WithOutput(left, output) == total
        decreases answer.None?, |input|
      {
        ghost var before, out := left, output;
        ghost var written;
        answer, written, left := ReadStep(buffer);
        OutputMoves(before, written, left, out);
      }
      assert output + [] == output;
      r := answer.value;
    }
  }

  method Unmask(buffer: array<byte>, mask: seq<byte>, data: seq<byte>)
    requires IsMask(mask) && |data| <= buffer.Length && buffer[..|data|] == data
    modifies buffer
    ensures buffer[..|data|] == Masked(mask, data)
    ensures buffer[|data|..] == old(buffer[|data|..])
  {
    var index := 0;
    while index < |data|
      invariant 0 <= index <= |data|
      invariant buffer[..index] == Masked(mask, data)[..index]
      invariant buffer[index..|data|] == data[index..]
      invariant buffer[|data|..] == old(buffer[|data|..])
    {
      assert buffer[index] == buffer[index..|data|][0] == data[index];
      buffer[index] := XorByte(buffer[index], mask[index % 4]);
      index := index + 1;
    }
  }
}
