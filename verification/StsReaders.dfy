/**
The firmware and host status readers over a byte stream; running out of bytes is a timeout. Both
hunt for the header byte by byte and give up after 128 bytes.
*/
module StsReaders {
  import opened Bytes
  import opened Sts

  const HUNT_LIMIT := 128

  datatype ServoFailure = InvalidServoId | InvalidArgument | Timeout | InvalidReply | ReportedError | Transport

  datatype HostFailure =
    | TimedOut | NoHeader | WrongServo(id: byte) | WrongLength(length: byte)
    | WrongChecksum | ServoError(error: byte) | WrongPayload(returned: nat)

  // ---------------------------------------------------------------- reference

  /** Two adjacent 0xFF bytes end just before position `n`. */
  predicate PairEndsAt(input: seq<byte>, n: nat) {
    2 <= n <= |input| && input[n - 2] == 0xff && input[n - 1] == 0xff
  }

  /** The first header of the stream ends at `n`, within the hunting limit. */
  ghost predicate HeaderEndsAt(input: seq<byte>, n: nat) {
    n <= HUNT_LIMIT && PairEndsAt(input, n) && forall m: nat :: m < n ==> !PairEndsAt(input, m)
  }

  /** After its first header the stream goes on with a valid status packet of servo `id`, which
      ends at `consumed`. */
  ghost predicate HoldsStatus(input: seq<byte>, id: byte, status: StatusPacket, consumed: nat) {
    exists n: nat :: HeaderEndsAt(input, n) && n <= consumed <= |input| &&
      DecodeStatusPacket(input[n..consumed], id) == Ok(status)
  }

  /** The status packet reports no error and carries `payload`. */
  ghost predicate IsReply(input: seq<byte>, id: byte, payload: seq<byte>, consumed: nat) {
    HoldsStatus(input, id, StatusPacket(0, payload), consumed)
  }

  /** The stream ends before the reader could decide. */
  ghost predicate Incomplete(input: seq<byte>) {
    || (|input| < HUNT_LIMIT && forall n: nat :: !HeaderEndsAt(input, n))
    || (exists n: nat :: HeaderEndsAt(input, n) &&
          (|input| < n + 2 || (2 <= input[n + 1] <= 66 && |input| < n + 2 + input[n + 1])))
  }

  lemma StatusShape(input: seq<byte>, id: byte, status: StatusPacket, c: nat, start: nat)
    requires HoldsStatus(input, id, status, c) && HeaderEndsAt(input, start)
    ensures start + 4 <= c <= |input|
    ensures c == start + 2 + input[start + 1] && 2 <= input[start + 1] <= 66
    ensures DecodeStatusPacket(input[start..c], id) == Ok(status)
  {
    var n: nat :| HeaderEndsAt(input, n) && n <= c <= |input| &&
                  DecodeStatusPacket(input[n..c], id) == Ok(status);
    assert n == start;
  }

  lemma StatusesBehind(input: seq<byte>, id: byte, start: nat)
    requires HeaderEndsAt(input, start)
    ensures forall p, c: nat :: HoldsStatus(input, id, p, c) ==>
              start + 4 <= c <= |input| && c == start + 2 + input[start + 1] &&
              2 <= input[start + 1] <= 66 && DecodeStatusPacket(input[start..c], id) == Ok(p)
  {
    forall p, c: nat | HoldsStatus(input, id, p, c)
      ensures start + 4 <= c <= |input| && c == start + 2 + input[start + 1]
      ensures 2 <= input[start + 1] <= 66 && DecodeStatusPacket(input[start..c], id) == Ok(p)
    {
      StatusShape(input, id, p, c, start);
    }
  }

  /** A stream holds at most one such packet. */
  lemma StatusIsUnique(input: seq<byte>, id: byte, p: StatusPacket, c: nat, p': StatusPacket, c': nat)
    requires HoldsStatus(input, id, p, c) && HoldsStatus(input, id, p', c')
    ensures p == p' && c == c'
  {
    var n: nat :| HeaderEndsAt(input, n) && n <= c <= |input| &&
                  DecodeStatusPacket(input[n..c], id) == Ok(p);
    StatusShape(input, id, p, c, n);
    StatusShape(input, id, p', c', n);
  }

  // ---------------------------------------------------------------- the readers

  datatype Hunt = Found | Exhausted | Starved

  /** The header hunt both readers share: stop behind the first pair, after 128 bytes, or when the
      stream runs dry. */
  method HuntHeader(input: seq<byte>) returns (hunt: Hunt, pos: nat)
    ensures pos <= |input| && pos <= HUNT_LIMIT
    ensures hunt.Found? ==> HeaderEndsAt(input, pos)
    ensures !hunt.Found? ==> forall n: nat :: !HeaderEndsAt(input, n)
    ensures !hunt.Found? ==> (hunt.Exhausted? <==> HUNT_LIMIT <= |input|)
    ensures hunt.Exhausted? ==> pos == HUNT_LIMIT
    ensures hunt.Starved? ==> pos == |input|
  {
    var previous: byte := 0;
    pos := 0;
    while pos < HUNT_LIMIT
      invariant pos <= |input| && pos <= HUNT_LIMIT
      invariant previous == if pos == 0 then 0 else input[pos - 1]
      invariant forall m: nat :: m <= pos ==> !PairEndsAt(input, m)
    {
      if pos == |input| {
        return Starved, pos;
      }
      var b := input[pos];
      pos := pos + 1;
      if previous == 0xff && b == 0xff {
        return Found, pos;
      }
      previous := b;
    }
    hunt := Exhausted;
  }

  /** What follows from the bytes behind the header. */
  predicate IsBodyVerdict(input: seq<byte>, start: nat, id: byte, r: Result<seq<byte>, ServoFailure>, pos: nat)
    requires start <= pos <= |input|
  {
    var status := DecodeStatusPacket(input[start..pos], id);
    && (r == Err(Timeout) <==>
          |input| < start + 2 || (2 <= input[start + 1] <= 66 && |input| < start + 2 + input[start + 1]))
    && (r.Ok? ==> status == Ok(StatusPacket(0, r.value)))
    && (r == Err(ReportedError) ==> status.Ok? && status.value.error != 0)
    && (r == Err(InvalidReply) ==>
          pos >= start + 2 && (!(2 <= input[start + 1] <= 66) || (pos == start + 2 + input[start + 1] && status.Err?)))
    && (r.Err? ==> r.error in {Timeout, InvalidReply, ReportedError})
  }

  /** The part of `read_sts_status` behind the header. */
  method FirmwareBody(input: seq<byte>, start: nat, expectedId: byte)
    returns (r: Result<seq<byte>, ServoFailure>, pos: nat)
    requires start <= |input|
    ensures start <= pos <= |input| && IsBodyVerdict(input, start, expectedId, r, pos)
  {
    pos := start;
    var packet := new byte[68](_ => 0);
    if pos == |input| {
      return Err(Timeout), pos;
    }
    packet[0] := input[pos];
    pos := pos + 1;
    if pos == |input| {
      return Err(Timeout), pos;
    }
    var length := input[pos];
    pos := pos + 1;
    if !(2 <= length <= 66) {
      return Err(InvalidReply), pos;
    }
    packet[1] := length;
    var i := 2;
    while i < length + 2
      invariant 2 <= i <= length + 2 && pos == start + i <= |input|
      invariant packet[..i] == input[start..pos]
    {
      if pos == |input| {
        return Err(Timeout), pos;
      }
      packet[i] := input[pos];
      pos := pos + 1;
      i := i + 1;
    }
    var status := DecodeStatusPacket(packet[..length + 2], expectedId);
    if status.Err? {
      return Err(InvalidReply), pos;
    }
    if status.value.error != 0 {
      return Err(ReportedError), pos;
    }
    return Ok(status.value.parameters), pos;
  }

  /** What `read_sts_status` may say about a stream, apart from where it stopped. */
  ghost predicate IsVerdict(input: seq<byte>, id: byte, r: Result<seq<byte>, ServoFailure>) {
    && (r.Ok? ==> exists c: nat :: IsReply(input, id, r.value, c))
    && (r == Err(Timeout) <==> Incomplete(input))
    && (r == Err(ReportedError) ==> exists p: StatusPacket, c: nat :: p.error != 0 && HoldsStatus(input, id, p, c))
    && (r == Err(InvalidReply) ==> forall p, c: nat :: !HoldsStatus(input, id, p, c))
    && (r.Err? ==> r.error in {Timeout, InvalidReply, ReportedError})
  }

  /** `read_sts_status`: succeeds exactly on the streams that start with a reply, and then reports
      its payload and stops at its end; every failure names its cause. */
  method FirmwareRead(input: seq<byte>, expectedId: byte)
    returns (r: Result<seq<byte>, ServoFailure>, consumed: nat)
    ensures consumed <= |input|
    ensures r.Ok? ==> IsReply(input, expectedId, r.value, consumed)
    ensures r == Err(ReportedError) ==>
              exists p: StatusPacket :: p.error != 0 && HoldsStatus(input, expectedId, p, consumed)
    ensures r == Err(Timeout) <==> Incomplete(input)
    ensures r == Err(InvalidReply) ==> forall p, c: nat :: !HoldsStatus(input, expectedId, p, c)
    ensures r.Err? ==> r.error in {Timeout, InvalidReply, ReportedError}
    ensures r.Err? ==> forall p, c: nat :: !IsReply(input, expectedId, p, c)
  {
    var hunt, start := HuntHeader(input);
    if hunt.Starved? {
      return Err(Timeout), start;
    }
    if hunt.Exhausted? {
      return Err(InvalidReply), start;
    }
    r, consumed := FirmwareBody(input, start, expectedId);
    VerdictBehindHeader(input, start, expectedId, r, consumed);
  }

  lemma OneHeader(input: seq<byte>, start: nat)
    requires HeaderEndsAt(input, start)
    ensures Incomplete(input) <==>
            |input| < start + 2 || (2 <= input[start + 1] <= 66 && |input| < start + 2 + input[start + 1])
  {
  }

  /** What the body says carries over to the stream, since its first header is the only one used. */
  lemma VerdictBehindHeader(input: seq<byte>, start: nat, id: byte, r: Result<seq<byte>, ServoFailure>, pos: nat)
    requires HeaderEndsAt(input, start) && start <= pos <= |input| && IsBodyVerdict(input, start, id, r, pos)
    ensures r.Ok? ==> IsReply(input, id, r.value, pos)
    ensures r == Err(ReportedError) ==> exists p: StatusPacket :: p.error != 0 && HoldsStatus(input, id, p, pos)
    ensures r == Err(Timeout) <==> Incomplete(input)
    ensures r == Err(InvalidReply) ==> forall p, c: nat :: !HoldsStatus(input, id, p, c)
    ensures r.Err? ==> r.error in {Timeout, InvalidReply, ReportedError}
    ensures r.Err? ==> forall p, c: nat :: !IsReply(input, id, p, c)
  {
    OneHeader(input, start);
    StatusesBehind(input, id, start);
    if r == Err(ReportedError) {
      assert HoldsStatus(input, id, DecodeStatusPacket(input[start..pos], id).value, pos);
    }
  }

  /** The host sums address and length before the body, instead of one contiguous slice. */
  method ChecksumForStatus(id: byte, length: byte, body: seq<byte>) returns (c: byte)
    ensures c == Checksum([id, length] + body)
  {
    var sum: byte := (id + length) % 0x100;
    var k := 0;
    while k < |body|
      invariant 0 <= k <= |body|
      invariant sum == (id + length + Total(body[..k])) % 0x100
    {
      TotalSnoc(body, k);
      WrapEarly(id + length + Total(body[..k]), body[k]);
      sum := (sum + body[k]) % 0x100;
      k := k + 1;
    }
    assert body[..k] == body;
    assert Total([id, length] + body) == id + length + Total(body) by {
      assert ([id, length] + body)[1..] == [length] + body;
      assert ([length] + body)[1..] == body;
    }
    ChecksumComplementsTotal([id, length] + body);
    c := 0xff - sum;
  }

  /** Each of the host's failures behind the header names its cause. */
  predicate HostFailureIsJust(
      input: seq<byte>, start: nat, expectedId: byte, dataLength: nat, failure: HostFailure, consumed: nat)
    requires start <= consumed <= |input|
  {
    var status := DecodeStatusPacket(input[start..consumed], expectedId);
    match failure
    case TimedOut =>
      |input| < start + 2 || (2 <= input[start + 1] <= 66 && |input| < start + 2 + input[start + 1])
    case NoHeader => false
    case WrongServo(id) => consumed == start + 2 && id == input[start] != expectedId
    case WrongLength(length) =>
      consumed == start + 2 && input[start] == expectedId && length == input[start + 1] && !(2 <= length <= 66)
    case WrongChecksum => status == Err(InvalidChecksum)
    case ServoError(error) => status.Ok? && status.value.error == error != 0
    case WrongPayload(returned) =>
      status.Ok? && status.value.error == 0 && |status.value.parameters| == returned != dataLength
  }

  /** The part of the host's `read_status` behind the header. */
  method HostBody(input: seq<byte>, start: nat, expectedId: byte, dataLength: nat)
    returns (r: Result<seq<byte>, HostFailure>, pos: nat)
    requires start <= |input|
    ensures start <= pos <= |input|
    ensures r.Ok? ==>
              |r.value| == dataLength &&
              DecodeStatusPacket(input[start..pos], expectedId) == Ok(StatusPacket(0, r.value))
    ensures r.Err? ==> HostFailureIsJust(input, start, expectedId, dataLength, r.error, pos)
  {
    pos := start;
    if |input| < pos + 2 {
      return Err(TimedOut), |input|;
    }
    var id, length := input[pos], input[pos + 1];
    pos := pos + 2;
    if id != expectedId {
      return Err(WrongServo(id)), pos;
    }
    if !(2 <= length <= 66) {
      return Err(WrongLength(length)), pos;
    }
    if |input| < pos + length {
      return Err(TimedOut), |input|;
    }
    var body := input[pos..pos + length];
    pos := pos + length;
    ghost var packet := input[start..pos];
    assert packet == [id, length] + body;
    assert packet[..|packet| - 1] == [id, length] + body[..|body| - 1];
    assert packet[3..|packet| - 1] == body[1..|body| - 1];
    var expected := ChecksumForStatus(id, length, body[..|body| - 1]);
    if body[|body| - 1] != expected {
      return Err(WrongChecksum), pos;
    }
    if body[0] != 0 {
      return Err(ServoError(body[0])), pos;
    }
    var payload := body[1..|body| - 1];
    if |payload| != dataLength {
      return Err(WrongPayload(|payload|)), pos;
    }
    return Ok(payload), pos;
  }

  /** The host's `read_status`: the same streams, the same payload and the same stopping point,
      except that the payload must also have the length the caller asked for. */
  method HostRead(input: seq<byte>, expectedId: byte, dataLength: nat)
    returns (r: Result<seq<byte>, HostFailure>, consumed: nat)
    ensures consumed <= |input|
    ensures r.Ok? ==> IsReply(input, expectedId, r.value, consumed) && |r.value| == dataLength
    ensures r.Err? ==> forall p, c: nat :: IsReply(input, expectedId, p, c) ==> |p| != dataLength
    ensures r == Err(NoHeader) ==> HUNT_LIMIT <= |input| && forall n: nat :: !HeaderEndsAt(input, n)
    ensures r == Err(TimedOut) ==> Incomplete(input)
    ensures r.Err? && !r.error.NoHeader? && !r.error.TimedOut? ==>
              exists n: nat :: HeaderEndsAt(input, n) && n <= consumed &&
                HostFailureIsJust(input, n, expectedId, dataLength, r.error, consumed)
  {
    var hunt, start := HuntHeader(input);
    if hunt.Starved? {
      return Err(TimedOut), start;
    }
    if hunt.Exhausted? {
      return Err(NoHeader), start;
    }
    r, consumed := HostBody(input, start, expectedId, dataLength);
    StatusesBehind(input, expectedId, start);
  }

  /** Run on the same stream, both readers succeed together (the host additionally fixing the
      payload length), with the same payload and the same number of bytes consumed. */
  method ReadersAgree(input: seq<byte>, id: byte, dataLength: nat)
    returns (firmware: Result<seq<byte>, ServoFailure>, host: Result<seq<byte>, HostFailure>, fc: nat, hc: nat)
    ensures host.Ok? <==> firmware.Ok? && |firmware.value| == dataLength
    ensures host.Ok? ==> host.value == firmware.value && hc == fc
  {
    firmware, fc := FirmwareRead(input, id);
    host, hc := HostRead(input, id, dataLength);
    if firmware.Ok? && host.Ok? {
      StatusIsUnique(input, id, StatusPacket(0, firmware.value), fc, StatusPacket(0, host.value), hc);
    }
  }

  // ---------------------------------------------------------------- resynchronisation

  /** No two adjacent 0xFF bytes. */
  ghost predicate PairFree(noise: seq<byte>) {
    forall n: nat :: !PairEndsAt(noise, n)
  }

  /** A header found one byte early makes the second 0xFF the address and the address the length,
      which no servo's packet survives. */
  lemma ReadOneByteEarly(input: seq<byte>, id: byte, start: nat)
    requires HeaderEndsAt(input, start) && start + 2 <= |input|
    requires input[start] == 0xff && input[start + 1] == id
    ensures forall p, c: nat :: !HoldsStatus(input, id, p, c)
  {
    StatusesBehind(input, id, start);
  }

  /** After pair-free noise, the reader finds an error-free reply and stops exactly at its end if
      and only if the noise has at most 126 bytes and does not end in 0xFF. */
  lemma ReplyAfterNoise(noise: seq<byte>, id: byte, payload: seq<byte>, rest: seq<byte>)
    requires PairFree(noise) && |payload| <= 64
    ensures (exists p, c: nat :: IsReply(noise + Packet(id, 0, payload) + rest, id, p, c)) <==>
            |noise| <= 126 && (noise == [] || noise[|noise| - 1] != 0xff)
    ensures |noise| <= 126 && (noise == [] || noise[|noise| - 1] != 0xff) ==>
              IsReply(noise + Packet(id, 0, payload) + rest, id, payload, |noise| + |payload| + 6)
  {
    var input := noise + Packet(id, 0, payload) + rest;
    var body := Body(id, 0, payload);
    var n := |noise|;
    assert input[n] == 0xff && input[n + 1] == 0xff && input[n + 2] == id;
    assert input[n + 2..n + 2 + |body|] == body;
    forall m: nat | m <= n
      ensures !PairEndsAt(input, m)
    {
      assert !PairEndsAt(noise, m);
    }
    if noise == [] || noise[n - 1] != 0xff {
      assert !PairEndsAt(input, n + 1);
      assert PairEndsAt(input, n + 2);
      if n <= 126 {
        assert HeaderEndsAt(input, n + 2);
        DecodeUndoesEncode(id, 0, payload, id);
        assert IsReply(input, id, payload, n + 2 + |body|);
      } else {
        forall m: nat
          ensures !HeaderEndsAt(input, m)
        {
          assert !PairEndsAt(input, m) || m >= n + 2;
        }
      }
    } else {
      assert PairEndsAt(input, n + 1);
      if n + 1 <= HUNT_LIMIT {
        assert HeaderEndsAt(input, n + 1);
        ReadOneByteEarly(input, id, n + 1);
      }
    }
  }

  /** What a stream that starts with a status packet holds: that packet, and a reply exactly when its
      error byte is zero. */
  lemma StatusAtTheFront(id: byte, error: byte, payload: seq<byte>, rest: seq<byte>)
    requires |payload| <= 64
    ensures var input, end := Packet(id, error, payload) + rest, |payload| + 6;
            && HoldsStatus(input, id, StatusPacket(error, payload), end)
            && (forall p, c: nat :: HoldsStatus(input, id, p, c) ==> p == StatusPacket(error, payload) && c == end)
            && (forall p, c: nat :: IsReply(input, id, p, c) <==> error == 0 && p == payload && c == end)
  {
    var body := Body(id, error, payload);
    var input := Packet(id, error, payload) + rest;
    assert input[0] == input[1] == 0xff;
    assert HeaderEndsAt(input, 2);
    assert input[2..2 + |body|] == body;
    DecodeUndoesEncode(id, error, payload, id);
    assert HoldsStatus(input, id, StatusPacket(error, payload), 2 + |body|);
    forall p, c: nat | HoldsStatus(input, id, p, c)
      ensures p == StatusPacket(error, payload) && c == 2 + |body|
    {
      StatusIsUnique(input, id, p, c, StatusPacket(error, payload), 2 + |body|);
    }
  }
}
