/**
Servo commands on the bus: the firmware's and the host's raw path, driven by the same script of
transactions. Each transaction says whether the transport takes the packet and which bytes then
arrive; they join the bytes still unread, and running out of bytes means a timeout.
*/
module ServoCommands {
  import opened Bytes
  import opened Sts
  import opened StsReaders

  const MAX_SERVO_ID: byte := 253
  const READ: byte := 0x02
  const WRITE: byte := 0x03
  const MODE: byte := 33
  const TORQUE_ENABLE: byte := 40
  const ACCELERATION: byte := 41
  const TORQUE_LIMIT: byte := 48
  const PRESENT_POSITION: byte := 56

  /** `drained` is how much a drain after this transaction would discard, at most four reads. */
  datatype Transaction = Transaction(accepted: bool, reply: seq<byte>, drained: nat)

  const DRAIN_LIMIT := 4 * 64

  /** The transactions ahead, the packets sent so far and the bytes received but not read. */
  datatype Line = Line(script: seq<Transaction>, sent: seq<seq<byte>>, pending: seq<byte>)

  /** Both sides' errors, as far as the shared behaviour goes. */
  datatype Outcome = Done | Refused | Failed

  predicate IsUnicast(id: byte) {
    id != 0 && id <= MAX_SERVO_ID
  }

  /** Goal register value: magnitude with the top bit for counter-clockwise. */
  function SignedSpeed(counterClockwise: bool, speed: u16): u16
    requires speed <= 4095
  {
    if counterClockwise then speed + 0x8000 else speed
  }

  function DecodeSigned15(value: u16): int {
    if value >= 0x8000 then -(value - 0x8000) else value
  }

  // ---------------------------------------------------------------- reference behaviour

  /** A register write: address and data. */
  datatype RegisterWrite = RegisterWrite(address: byte, data: seq<byte>)

  datatype Command =
    | StartMotor(id: byte, counterClockwise: bool, speed: u16, acceleration: byte)
    | StopMotor(id: byte)
    | SetPosition(id: byte, position: u16, acceleration: byte, torqueLimit: u16)

  predicate IsValid(c: Command) {
    IsUnicast(c.id) &&
    match c
    case StartMotor(_, _, speed, _) => speed <= 4095
    case StopMotor(_) => true
    case SetPosition(_, position, _, torqueLimit) => position <= 4095 && torqueLimit <= 1000
  }

  function Writes(c: Command): seq<RegisterWrite>
    requires IsValid(c)
  {
    match c
    case StartMotor(_, counterClockwise, speed, acceleration) =>
      [RegisterWrite(MODE, [1]), RegisterWrite(TORQUE_ENABLE, [1]),
       RegisterWrite(ACCELERATION, [acceleration, 0, 0, 0, 0] + Le16(SignedSpeed(counterClockwise, speed)))]
    case StopMotor(_) => [RegisterWrite(ACCELERATION, [0, 0, 0, 0, 0, 0, 0])]
    case SetPosition(_, position, acceleration, torqueLimit) =>
      [RegisterWrite(TORQUE_ENABLE, [1]), RegisterWrite(TORQUE_LIMIT, Le16(torqueLimit)),
       RegisterWrite(ACCELERATION, [acceleration] + Le16(position) + [0, 0, 0, 0])]
  }

  function WritePacket(id: byte, w: RegisterWrite): seq<byte>
    requires |w.data| <= 0xfc
  {
    Packet(id, WRITE, [w.address] + w.data)
  }

  /** The servo acknowledged: an error-free reply without data. */
  ghost predicate Acknowledges(reply: seq<byte>, id: byte) {
    exists c: nat :: IsReply(reply, id, [], c)
  }

  function Head(script: seq<Transaction>): Transaction {
    if script == [] then Transaction(true, [], 0) else script[0]
  }

  function Tail(script: seq<Transaction>): seq<Transaction> {
    if script == [] then [] else script[1..]
  }

  /** What the reader of the next transaction gets to see. */
  function Input(l: Line): seq<byte> {
    l.pending + Head(l.script).reply
  }

  /** Bytes the transactions ahead will bring. */
  function Coming(script: seq<Transaction>): nat {
    if script == [] then 0 else |script[0].reply| + Coming(script[1..])
  }

  /** Bytes unread or still to come. */
  function Weight(l: Line): nat {
    |l.pending| + Coming(l.script)
  }

  /** Where the acknowledgement ends. */
  ghost function EndOfReply(input: seq<byte>, id: byte): (c: nat)
    requires Acknowledges(input, id)
    ensures IsReply(input, id, [], c) && c <= |input|
  {
    var c: nat :| IsReply(input, id, [], c);
    c
  }

  /** What is left unread behind the acknowledgement. */
  ghost function RestOf(input: seq<byte>, id: byte): seq<byte>
    requires Acknowledges(input, id)
  {
    input[EndOfReply(input, id)..]
  }

  lemma RestIsUnique(input: seq<byte>, id: byte, c: nat)
    requires IsReply(input, id, [], c)
    ensures Acknowledges(input, id) && c <= |input| && RestOf(input, id) == input[c..]
  {
    StatusIsUnique(input, id, StatusPacket(0, []), c, StatusPacket(0, []), EndOfReply(input, id));
  }

  /** How a sequence of writes ends: packets sent, whether all were acknowledged, script left, and,
      after success, the bytes left unread. */
  datatype End = End(sent: seq<seq<byte>>, ok: bool, script: seq<Transaction>, pending: Option<seq<byte>>)

  /** One write after the other, each only after the acknowledgement of the one before. */
  ghost function Drive(id: byte, writes: seq<RegisterWrite>, l: Line): End
    requires forall w :: w in writes ==> |w.data| <= 7
    decreases |writes|
  {
    if writes == [] then End(l.sent, true, l.script, Some(l.pending))
    else
      var next := Tail(l.script);
      if !Head(l.script).accepted then End(l.sent, false, next, None)
      else
        var sent := l.sent + [WritePacket(id, writes[0])];
        if !Acknowledges(Input(l), id) then End(sent, false, next, None)
        else Drive(id, writes[1..], Line(next, sent, RestOf(Input(l), id)))
  }

  /** The packet of transaction `k` was taken and acknowledged, as were all before it, on the bytes
      the earlier acknowledgements left. */
  ghost predicate Acknowledged(id: byte, script: seq<Transaction>, pending: seq<byte>, k: nat)
    decreases k
  {
    var input := pending + Head(script).reply;
    && Head(script).accepted && Acknowledges(input, id)
    && (k > 0 ==> Acknowledged(id, Tail(script), RestOf(input, id), k - 1))
  }

  function AllPackets(id: byte, writes: seq<RegisterWrite>): seq<seq<byte>>
    requires forall w :: w in writes ==> |w.data| <= 7
  {
    if writes == [] then [] else [WritePacket(id, writes[0])] + AllPackets(id, writes[1..])
  }

  /** Packets added to the line by a sequence of writes. */
  ghost function Count(id: byte, writes: seq<RegisterWrite>, l: Line): int
    requires forall w :: w in writes ==> |w.data| <= 7
  {
    |Drive(id, writes, l).sent| - |l.sent|
  }

  /** Any output is a prefix of the full packet sequence, and success means all of it. */
  lemma {:induction false} OutputIsPrefix(id: byte, writes: seq<RegisterWrite>, l: Line)
    requires forall w :: w in writes ==> |w.data| <= 7
    ensures |AllPackets(id, writes)| == |writes| && 0 <= Count(id, writes, l) <= |writes|
    ensures Drive(id, writes, l).sent == l.sent + AllPackets(id, writes)[..Count(id, writes, l)]
    ensures Drive(id, writes, l).ok ==> Count(id, writes, l) == |writes|
    decreases |writes|
  {
    if writes != [] {
      var sent := l.sent + [WritePacket(id, writes[0])];
      var m := Line(Tail(l.script), sent, if Acknowledges(Input(l), id) then RestOf(Input(l), id) else []);
      OutputIsPrefix(id, writes[1..], m);
      OnePacketMore(l.sent, WritePacket(id, writes[0]), AllPackets(id, writes[1..]), Count(id, writes[1..], m));
    }
  }

  lemma OnePacketMore(sent: seq<seq<byte>>, packet: seq<byte>, later: seq<seq<byte>>, n: nat)
    requires n <= |later|
    ensures (sent + [packet]) + later[..n] == sent + ([packet] + later)[..n + 1]
    ensures sent == sent + ([packet] + later)[..0] && sent + [packet] == sent + ([packet] + later)[..1]
  {
  }

  /** A further packet, or success, needs the acknowledgement of every packet before. */
  lemma {:induction false} OutputIsAcknowledged(id: byte, writes: seq<RegisterWrite>, l: Line, k: nat)
    requires forall w :: w in writes ==> |w.data| <= 7
    requires k + 1 < Count(id, writes, l) || (k < |writes| && Drive(id, writes, l).ok)
    ensures Acknowledged(id, l.script, l.pending, k)
    decreases |writes|
  {
    var sent := l.sent + [WritePacket(id, writes[0])];
    var m := Line(Tail(l.script), sent, RestOf(Input(l), id));
    if k > 0 {
      OutputIsAcknowledged(id, writes[1..], m, k - 1);
    }
  }

  /** Every packet of a valid command is well formed, fits the 16-byte buffer and is addressed to one
      servo between 1 and 253. */
  lemma PacketsAreWellFormed(c: Command, w: RegisterWrite)
    requires IsValid(c) && w in Writes(c)
    ensures 1 <= |w.data| <= 7 && 1 <= c.id <= 253
    ensures var packet := WritePacket(c.id, w);
            && 8 <= |packet| <= 16 && packet[..2] == Header
            && DecodeStatusPacket(packet[2..], c.id) == Ok(StatusPacket(WRITE, [w.address] + w.data))
  {
    assert |Writes(c)| <= 3;
    DecodeUndoesEncode(c.id, WRITE, [w.address] + w.data, c.id);
    assert WritePacket(c.id, w)[2..] == Body(c.id, WRITE, [w.address] + w.data);
  }

  // ---------------------------------------------------------------- what the packets say

  /** The packet writes `data` to register `address` of servo `id`. */
  predicate SaysWrite(packet: seq<byte>, id: byte, address: byte, data: seq<byte>) {
    && |packet| >= 2 && packet[0] == packet[1] == 0xff
    && DecodeStatusPacket(packet[2..], id) == Ok(StatusPacket(3, [address] + data))
  }

  lemma WriteSays(id: byte, w: RegisterWrite)
    requires |w.data| <= 7
    ensures SaysWrite(WritePacket(id, w), id, w.address, w.data)
  {
    DecodeUndoesEncode(id, WRITE, [w.address] + w.data, id);
    assert WritePacket(id, w)[2..] == Body(id, WRITE, [w.address] + w.data);
  }

  /** Which commands are valid, in numbers. */
  lemma ValidExactlyWhen(c: Command)
    ensures IsValid(c) <==>
            1 <= c.id <= 253 &&
            match c
            case StartMotor(_, _, speed, _) => speed <= 4095
            case StopMotor(_) => true
            case SetPosition(_, position, _, torqueLimit) => position <= 4095 && torqueLimit <= 1000
  {
  }

  /** Starting a motor: mode 1, torque on, and seven bytes of which the first is the acceleration and
      the last two are the speed, with the top bit set exactly for counter-clockwise. */
  lemma StartMotorSays(id: byte, counterClockwise: bool, speed: u16, acceleration: byte, w: u16)
    requires IsValid(StartMotor(id, counterClockwise, speed, acceleration))
    requires w % 0x8000 == speed && (w >= 0x8000 <==> counterClockwise)
    ensures var writes := Writes(StartMotor(id, counterClockwise, speed, acceleration));
            && (forall w :: w in writes ==> |w.data| <= 7)
            && var packets := AllPackets(id, writes);
               && |packets| == 3 && SaysWrite(packets[0], id, 33, [1]) && SaysWrite(packets[1], id, 40, [1])
               && SaysWrite(packets[2], id, 41, [acceleration, 0, 0, 0, 0, w % 256, w / 256])
  {
    var writes := Writes(StartMotor(id, counterClockwise, speed, acceleration));
    assert SignedSpeed(counterClockwise, speed) == w;
    assert writes[2].data == [acceleration, 0, 0, 0, 0, w % 256, w / 256];
    ThreePackets(id, writes);
  }

  /** Stopping it: seven zeros in one write. */
  lemma StopMotorSays(id: byte)
    requires IsValid(StopMotor(id))
    ensures var writes := Writes(StopMotor(id));
            && (forall w :: w in writes ==> |w.data| <= 7)
            && |AllPackets(id, writes)| == 1
            && SaysWrite(AllPackets(id, writes)[0], id, 41, [0, 0, 0, 0, 0, 0, 0])
  {
    var writes := Writes(StopMotor(id));
    assert writes[1..] == [];
    WriteSays(id, writes[0]);
  }

  /** Moving to a position: torque on, the limit, and acceleration and position in seven bytes. */
  lemma SetPositionSays(id: byte, position: u16, acceleration: byte, torqueLimit: u16)
    requires IsValid(SetPosition(id, position, acceleration, torqueLimit))
    ensures var writes := Writes(SetPosition(id, position, acceleration, torqueLimit));
            && (forall w :: w in writes ==> |w.data| <= 7)
            && var packets := AllPackets(id, writes);
               && |packets| == 3 && SaysWrite(packets[0], id, 40, [1])
               && SaysWrite(packets[1], id, 48, [torqueLimit % 256, torqueLimit / 256])
               && SaysWrite(packets[2], id, 41, [acceleration, position % 256, position / 256, 0, 0, 0, 0])
  {
    var writes := Writes(SetPosition(id, position, acceleration, torqueLimit));
    assert writes[2].data == [acceleration, position % 256, position / 256, 0, 0, 0, 0];
    ThreePackets(id, writes);
  }

  lemma ThreePackets(id: byte, writes: seq<RegisterWrite>)
    requires |writes| == 3 && forall w :: w in writes ==> |w.data| <= 7
    ensures |AllPackets(id, writes)| == 3
    ensures forall k :: 0 <= k < 3 ==> SaysWrite(AllPackets(id, writes)[k], id, writes[k].address, writes[k].data)
  {
    PacketsInOrder(id, writes, 0);
    PacketsInOrder(id, writes, 1);
    PacketsInOrder(id, writes, 2);
    WriteSays(id, writes[0]);
    WriteSays(id, writes[1]);
    WriteSays(id, writes[2]);
  }

  lemma {:induction false} PacketsInOrder(id: byte, writes: seq<RegisterWrite>, k: nat)
    requires k < |writes| && forall w :: w in writes ==> |w.data| <= 7
    ensures |AllPackets(id, writes)| == |writes| && AllPackets(id, writes)[k] == WritePacket(id, writes[k])
  {
    if |writes| > 1 {
      PacketsInOrder(id, writes[1..], if k == 0 then 0 else k - 1);
    }
  }

  /** A position is asked for by reading two bytes from register 56, and reported low byte first with
      the top bit of the high byte as its sign; a speed written to a servo reads back signed. */
  lemma PositionSays(id: byte, low: byte, high: byte, counterClockwise: bool, speed: u16)
    requires speed <= 4095
    ensures DecodeStatusPacket(Packet(id, READ, [PRESENT_POSITION, 2])[2..], id) == Ok(StatusPacket(2, [56, 2]))
    ensures PositionIn([low, high]) ==
            if high < 128 then (low as int) + 256 * (high as int) else -((low as int) + 256 * (high - 128))
    ensures PositionIn(Le16(SignedSpeed(counterClockwise, speed)))
         == if counterClockwise then -(speed as int) else speed
  {
    DecodeUndoesEncode(id, READ, [PRESENT_POSITION, 2], id);
    assert Packet(id, READ, [PRESENT_POSITION, 2])[2..] == Body(id, READ, [PRESENT_POSITION, 2]);
  }

  /** A write is acknowledged exactly by a reply without error and without data, and a position is
      reported exactly by one without error and with two bytes. */
  lemma RepliesMean(id: byte, error: byte, payload: seq<byte>, rest: seq<byte>)
    requires |payload| <= 64
    ensures var input := Packet(id, error, payload) + rest;
            && (Acknowledges(input, id) <==> error == 0 && payload == [])
            && (Acknowledges(input, id) ==> RestOf(input, id) == rest)
            && (forall position, left :: ReportsPosition(input, id, position, left) <==>
                  error == 0 && |payload| == 2 && position == PositionIn(payload) && left == rest)
  {
    var input := Packet(id, error, payload) + rest;
    StatusAtTheFront(id, error, payload, rest);
    assert |Packet(id, error, payload)| == |payload| + 6 && input[|payload| + 6..] == rest;
    if error == 0 {
      assert IsReply(input, id, payload, |payload| + 6);
      if payload == [] {
        RestIsUnique(input, id, 6);
      }
    }
  }

  // ---------------------------------------------------------------- the bus

  class Bus {
    var sent: seq<seq<byte>>
    var script: seq<Transaction>
    var pending: seq<byte>

    function View(): Line
      reads this
    {
      Line(script, sent, pending)
    }

    constructor (script: seq<Transaction>, pending: seq<byte>)
      ensures View() == Line(script, [], pending)
    {
      this.sent, this.script, this.pending := [], script, pending;
    }

    /** Put a packet on the bus; what then arrives joins the unread bytes. */
    method Transmit(packet: seq<byte>) returns (accepted: bool)
      modifies this
      ensures accepted == Head(old(script)).accepted
      ensures script == Tail(old(script)) && pending == Input(old(View()))
      ensures sent == if accepted then old(sent) + [packet] else old(sent)
    {
      accepted, pending := Head(script).accepted, pending + Head(script).reply;
      script := Tail(script);
      if accepted {
        sent := sent + [packet];
      }
    }

    /** The reader took the first `n` bytes. */
    method Consume(n: nat)
      requires n <= |pending|
      modifies this`pending
      ensures pending == old(pending)[n..]
    {
      pending := pending[n..];
    }

    /** `resynchronize_uart`: discard what four short reads find, which need not be all. */
    method Drain(found: nat)
      modifies this`pending
      ensures pending == Drained(old(pending), found)
    {
      var n := if found < DRAIN_LIMIT then found else DRAIN_LIMIT;
      pending := pending[if n < |pending| then n else |pending|..];
    }
  }

  /** What is left behind a drain that finds this many bytes; four reads take 256 at most. */
  function Drained(pending: seq<byte>, found: nat): seq<byte> {
    var n := if found < 256 then found else 256;
    pending[if n < |pending| then n else |pending|..]
  }

  /** The end of `input`, from some byte on. */
  ghost predicate IsRest(input: seq<byte>, rest: seq<byte>) {
    exists c: nat :: c <= |input| && rest == input[c..]
  }

  // ---------------------------------------------------------------- firmware

  method FirmwareSend(bus: Bus, id: byte, instruction: byte, parameters: seq<byte>)
    returns (r: Result<seq<byte>, ServoFailure>)
    modifies bus
    ensures |parameters| > 10 ==> r == Err(InvalidArgument) && bus.View() == old(bus.View())
    ensures |parameters| <= 10 ==>
              var t, input := Head(old(bus.script)), Input(old(bus.View()));
              && bus.script == Tail(old(bus.script)) && IsRest(input, bus.pending)
              && bus.sent ==
                 (if t.accepted then old(bus.sent) + [Packet(id, instruction, parameters)] else old(bus.sent))
              && (r == Err(Transport) <==> !t.accepted)
              && (t.accepted ==> IsVerdict(input, id, r))
              && (r.Ok? ==>
                    exists c: nat :: IsReply(input, id, r.value, c) && c <= |input| && bus.pending == input[c..])
              && (r.Err? && t.accepted ==> forall p, c: nat :: !IsReply(input, id, p, c))
  {
    var packet := new byte[16](_ => 0);
    var length := EncodeInstructionPacket(packet, id, instruction, parameters);
    if length.Err? {
      return Err(InvalidArgument);
    }
    assert packet[..length.value] == packet[..][..length.value] == Packet(id, instruction, parameters);
    var accepted := bus.Transmit(packet[..length.value]);
    if !accepted {
      assert bus.pending[0..] == bus.pending;
      return Err(Transport);
    }
    var consumed;
    r, consumed := FirmwareRead(bus.pending, id);
    assert r.Ok? ==> IsReply(bus.pending, id, r.value, consumed);
    bus.Consume(consumed);
  }

  lemma OnlyEmptyReplyAcknowledges(reply: seq<byte>, id: byte, p: seq<byte>, c: nat)
    requires IsReply(reply, id, p, c)
    ensures Acknowledges(reply, id) <==> p == []
  {
    if Acknowledges(reply, id) {
      var c': nat :| IsReply(reply, id, [], c');
      StatusIsUnique(reply, id, StatusPacket(0, p), c, StatusPacket(0, []), c');
    }
  }

  /** One register write on the bus, seen as the first step of a sequence of writes. */
  ghost predicate Wrote(id: byte, w: RegisterWrite, l: Line, ok: bool, m: Line)
    requires |w.data| <= 0xfc
  {
    var t, input := Head(l.script), Input(l);
    && ok == (t.accepted && Acknowledges(input, id))
    && m.script == Tail(l.script)
    && m.sent == (if t.accepted then l.sent + [WritePacket(id, w)] else l.sent)
    && (ok ==> m.pending == RestOf(input, id)) && Weight(m) <= Weight(l)
  }

  method FirmwareWriteRegister(bus: Bus, id: byte, address: byte, data: seq<byte>) returns (ok: bool)
    modifies bus
    ensures |data| > 7 ==> !ok && bus.View() == old(bus.View())
    ensures |data| <= 7 ==> Wrote(id, RegisterWrite(address, data), old(bus.View()), ok, bus.View())
  {
    var parameters := new byte[8](_ => 0);
    if |data| > parameters.Length - 1 {
      return false;
    }
    parameters[0] := address;
    CopySlice(parameters, 1, data);
    assert parameters[..|data| + 1] == parameters[..][..|data| + 1] == [address] + data;
    ghost var input := Input(bus.View());
    var r := FirmwareSend(bus, id, WRITE, parameters[..|data| + 1]);
    if r.Ok? {
      ghost var c: nat :| IsReply(input, id, r.value, c) && c <= |input| && bus.pending == input[c..];
      OnlyEmptyReplyAcknowledges(input, id, r.value, c);
      if |r.value| == 0 {
        RestIsUnique(input, id, c);
      }
      return |r.value| == 0;
    }
    return false;
  }

  /** One write brings the bus closer to the same end, or is the end when it fails. */
  lemma WriteAdvances(id: byte, writes: seq<RegisterWrite>, l: Line, ok: bool, m: Line)
    requires writes != [] && forall w :: w in writes ==> |w.data| <= 7
    requires Wrote(id, writes[0], l, ok, m)
    ensures Drive(id, writes, l) == if ok then Drive(id, writes[1..], m) else End(m.sent, false, m.script, None)
  {
  }

  /** The line as the end of a sequence of writes. */
  function AsEnd(m: Line, ok: bool): End {
    End(m.sent, ok, m.script, if ok then Some(m.pending) else None)
  }

  /** The command did what the reference says: nothing when invalid, otherwise its writes. */
  ghost predicate Executed(c: Command, l: Line, outcome: Outcome, m: Line) {
    Weight(m) <= Weight(l) &&
    if !IsValid(c) then outcome == Refused && m.script == l.script && m.sent == l.sent
    else
      WritesAreShort(c);
      (outcome == Done || outcome == Failed) && Drive(c.id, Writes(c), l) == AsEnd(m, outcome == Done)
  }

  lemma WritesAreShort(c: Command)
    requires IsValid(c)
    ensures forall w :: w in Writes(c) ==> |w.data| <= 7
  {
  }

  /** Three writes, each only after the one before was acknowledged. */
  method FirmwareWriteThree(bus: Bus, id: byte, first: RegisterWrite, second: RegisterWrite, third: RegisterWrite)
    returns (r: Outcome)
    requires |first.data| <= 7 && |second.data| <= 7 && |third.data| <= 7
    modifies bus
    ensures r == Done || r == Failed
    ensures Drive(id, [first, second, third], old(bus.View())) == AsEnd(bus.View(), r == Done)
    ensures Weight(bus.View()) <= Weight(old(bus.View()))
  {
    ghost var writes := [first, second, third];
    assert writes[1..] == [second, third] && [second, third][1..] == [third] && [third][1..] == [];
    ghost var l0 := bus.View();
    var ok := FirmwareWriteRegister(bus, id, first.address, first.data);
    WriteAdvances(id, writes, l0, ok, bus.View());
    if !ok {
      return Failed;
    }
    ghost var l1 := bus.View();
    ok := FirmwareWriteRegister(bus, id, second.address, second.data);
    WriteAdvances(id, [second, third], l1, ok, bus.View());
    if !ok {
      return Failed;
    }
    ghost var l2 := bus.View();
    ok := FirmwareWriteRegister(bus, id, third.address, third.data);
    WriteAdvances(id, [third], l2, ok, bus.View());
    return if ok then Done else Failed;
  }

  method FirmwareStartMotor(bus: Bus, id: byte, counterClockwise: bool, speed: u16, acceleration: byte)
    returns (r: Outcome)
    modifies bus
    ensures r == Refused ==> bus.View() == old(bus.View())
    ensures Executed(StartMotor(id, counterClockwise, speed, acceleration),
                     old(bus.View()), r, bus.View())
  {
    if !IsUnicast(id) || speed > 4095 {
      return Refused;
    }
    var signedSpeed := if counterClockwise then speed + 0x8000 else speed;
    var command := new byte[7](_ => 0);
    command[0] := acceleration;
    CopySlice(command, 5, Le16(signedSpeed));
    assert command[..] == [acceleration, 0, 0, 0, 0] + Le16(signedSpeed);
    r := FirmwareWriteThree(bus, id, RegisterWrite(MODE, [1]), RegisterWrite(TORQUE_ENABLE, [1]),
                            RegisterWrite(ACCELERATION, command[..]));
  }

  method FirmwareStopMotor(bus: Bus, id: byte) returns (r: Outcome)
    modifies bus
    ensures r == Refused ==> bus.View() == old(bus.View())
    ensures Executed(StopMotor(id), old(bus.View()), r, bus.View())
  {
    if !IsUnicast(id) {
      return Refused;
    }
    ghost var writes := Writes(StopMotor(id));
    ghost var l := bus.View();
    var ok := FirmwareWriteRegister(bus, id, ACCELERATION, [0, 0, 0, 0, 0, 0, 0]);
    WriteAdvances(id, writes, l, ok, bus.View());
    assert writes[1..] == [];
    return if ok then Done else Failed;
  }

  method FirmwareMovePosition(bus: Bus, id: byte, position: u16, acceleration: byte, torqueLimit: u16)
    returns (r: Outcome)
    modifies bus
    ensures r == Refused ==> bus.View() == old(bus.View())
    ensures Executed(SetPosition(id, position, acceleration, torqueLimit),
                     old(bus.View()), r, bus.View())
  {
    if !IsUnicast(id) || position > 4095 || torqueLimit > 1000 {
      return Refused;
    }
    var command := new byte[7](_ => 0);
    command[0] := acceleration;
    CopySlice(command, 1, Le16(position));
    assert command[..] == [acceleration] + Le16(position) + [0, 0, 0, 0];
    r := FirmwareWriteThree(bus, id, RegisterWrite(TORQUE_ENABLE, [1]), RegisterWrite(TORQUE_LIMIT, Le16(torqueLimit)),
                            RegisterWrite(ACCELERATION, command[..]));
  }

  function PositionIn(payload: seq<byte>): int
    requires |payload| == 2
  {
    DecodeSigned15((payload[0] as int) + 0x100 * (payload[1] as int))
  }

  /** The position reported by an error-free two-byte reply, and the bytes behind that reply. */
  ghost predicate ReportsPosition(input: seq<byte>, id: byte, position: int, rest: seq<byte>) {
    exists p, c: nat :: |p| == 2 && IsReply(input, id, p, c) && position == PositionIn(p) &&
      c <= |input| && rest == input[c..]
  }

  /** One read transaction: the packet sent, the position if there is one, and then what is left. */
  ghost predicate PositionRead(id: byte, l: Line, r: Option<int>, m: Line) {
    if !IsUnicast(id) then r == None && m == l
    else
      var t, input := Head(l.script), Input(l);
      && m.script == Tail(l.script)
      && m.sent == (if t.accepted then l.sent + [Packet(id, READ, [PRESENT_POSITION, 2])] else l.sent)
      && (r.Some? ==> t.accepted && ReportsPosition(input, id, r.value, m.pending))
      && (r.None? && t.accepted ==> forall position, rest :: !ReportsPosition(input, id, position, rest))
  }

  method FirmwareReadPosition(bus: Bus, id: byte) returns (r: Option<int>)
    modifies bus
    ensures PositionRead(id, old(bus.View()), r, bus.View())
  {
    if !IsUnicast(id) {
      return None;
    }
    ghost var input := Input(bus.View());
    var status := FirmwareSend(bus, id, READ, [PRESENT_POSITION, 2]);
    if status.Err? {
      return None;
    }
    ghost var c: nat :| IsReply(input, id, status.value, c) && c <= |input| && bus.pending == input[c..];
    if |status.value| != 2 {
      OnlyOnePayload(input, id, status.value, c);
      return None;
    }
    return Some(PositionIn(status.value));
  }

  lemma OnlyOnePayload(reply: seq<byte>, id: byte, p: seq<byte>, c: nat)
    requires IsReply(reply, id, p, c)
    ensures forall p', c': nat :: IsReply(reply, id, p', c') ==> p' == p && c' == c
  {
    forall p', c': nat | IsReply(reply, id, p', c')
      ensures p' == p && c' == c
    {
      StatusIsUnique(reply, id, StatusPacket(0, p), c, StatusPacket(0, p'), c');
    }
  }

  // ---------------------------------------------------------------- host raw path

  method HostWritePacket(bus: Bus, id: byte, instruction: byte, parameters: seq<byte>) returns (accepted: bool)
    modifies bus
    ensures |parameters| > 0xfd ==> !accepted && bus.View() == old(bus.View())
    ensures |parameters| <= 0xfd ==>
              && accepted == Head(old(bus.script)).accepted
              && bus.script == Tail(old(bus.script)) && bus.pending == Input(old(bus.View()))
              && bus.sent == if accepted then old(bus.sent) + [Packet(id, instruction, parameters)] else old(bus.sent)
  {
    if |parameters| + 2 > 0xff {
      return false;
    }
    var packet := Header;
    packet := packet + [id, |parameters| + 2, instruction];
    packet := packet + parameters;
    assert packet[2..] == [id, |parameters| + 2, instruction] + parameters;
    var checksum := ComputeChecksum(packet[2..]);
    packet := packet + [checksum];
    assert packet == Packet(id, instruction, parameters);
    accepted := bus.Transmit(packet);
  }

  method HostWriteRegister(bus: Bus, id: byte, address: byte, data: seq<byte>) returns (ok: bool)
    modifies bus
    ensures |data| > 0xfc ==> !ok && bus.View() == old(bus.View())
    ensures |data| <= 0xfc ==> Wrote(id, RegisterWrite(address, data), old(bus.View()), ok, bus.View())
  {
    var accepted := HostWritePacket(bus, id, WRITE, [address] + data);
    if !accepted {
      return false;
    }
    var r, consumed := HostRead(bus.pending, id, 0);
    if r.Ok? {
      RestIsUnique(bus.pending, id, consumed);
    }
    bus.Consume(consumed);
    return r.Ok?;
  }

  /** Three writes, each only after the one before was acknowledged. */
  method HostWriteThree(bus: Bus, id: byte, first: RegisterWrite, second: RegisterWrite, third: RegisterWrite)
    returns (r: Outcome)
    requires |first.data| <= 7 && |second.data| <= 7 && |third.data| <= 7
    modifies bus
    ensures r == Done || r == Failed
    ensures Drive(id, [first, second, third], old(bus.View())) == AsEnd(bus.View(), r == Done)
    ensures Weight(bus.View()) <= Weight(old(bus.View()))
  {
    ghost var writes := [first, second, third];
    assert writes[1..] == [second, third] && [second, third][1..] == [third] && [third][1..] == [];
    ghost var l0 := bus.View();
    var ok := HostWriteRegister(bus, id, first.address, first.data);
    WriteAdvances(id, writes, l0, ok, bus.View());
    if !ok {
      return Failed;
    }
    ghost var l1 := bus.View();
    ok := HostWriteRegister(bus, id, second.address, second.data);
    WriteAdvances(id, [second, third], l1, ok, bus.View());
    if !ok {
      return Failed;
    }
    ghost var l2 := bus.View();
    ok := HostWriteRegister(bus, id, third.address, third.data);
    WriteAdvances(id, [third], l2, ok, bus.View());
    return if ok then Done else Failed;
  }

  method HostStartMotor(bus: Bus, id: byte, counterClockwise: bool, speed: u16, acceleration: byte)
    returns (r: Outcome)
    modifies bus
    ensures r == Refused ==> bus.View() == old(bus.View())
    ensures Executed(StartMotor(id, counterClockwise, speed, acceleration),
                     old(bus.View()), r, bus.View())
  {
    if !IsUnicast(id) || speed > 4095 {
      return Refused;
    }
    var signedSpeed := if counterClockwise then speed + 0x8000 else speed;
    var command := new byte[7](_ => 0);
    command[0] := acceleration;
    CopySlice(command, 5, Le16(signedSpeed));
    assert command[..] == [acceleration, 0, 0, 0, 0] + Le16(signedSpeed);
    r := HostWriteThree(bus, id, RegisterWrite(MODE, [1]), RegisterWrite(TORQUE_ENABLE, [1]),
                            RegisterWrite(ACCELERATION, command[..]));
  }

  method HostStopMotor(bus: Bus, id: byte) returns (r: Outcome)
    modifies bus
    ensures r == Refused ==> bus.View() == old(bus.View())
    ensures Executed(StopMotor(id), old(bus.View()), r, bus.View())
  {
    if !IsUnicast(id) {
      return Refused;
    }
    ghost var writes := Writes(StopMotor(id));
    ghost var l := bus.View();
    var ok := HostWriteRegister(bus, id, ACCELERATION, [0, 0, 0, 0, 0, 0, 0]);
    WriteAdvances(id, writes, l, ok, bus.View());
    assert writes[1..] == [];
    return if ok then Done else Failed;
  }

  method HostMovePosition(bus: Bus, id: byte, position: u16, acceleration: byte, torqueLimit: u16)
    returns (r: Outcome)
    modifies bus
    ensures r == Refused ==> bus.View() == old(bus.View())
    ensures Executed(SetPosition(id, position, acceleration, torqueLimit),
                     old(bus.View()), r, bus.View())
  {
    if !IsUnicast(id) || position > 4095 || torqueLimit > 1000 {
      return Refused;
    }
    var command := new byte[7](_ => 0);
    command[0] := acceleration;
    CopySlice(command, 1, Le16(position));
    assert command[..] == [acceleration] + Le16(position) + [0, 0, 0, 0];
    r := HostWriteThree(bus, id, RegisterWrite(TORQUE_ENABLE, [1]), RegisterWrite(TORQUE_LIMIT, Le16(torqueLimit)),
                            RegisterWrite(ACCELERATION, command[..]));
  }

  method HostReadPosition(bus: Bus, id: byte) returns (r: Option<int>)
    modifies bus
    ensures PositionRead(id, old(bus.View()), r, bus.View())
  {
    if !IsUnicast(id) {
      return None;
    }
    var accepted := HostWritePacket(bus, id, READ, [PRESENT_POSITION, 2]);
    if !accepted {
      return None;
    }
    var payload, consumed := HostRead(bus.pending, id, 2);
    bus.Consume(consumed);
    if payload.Err? {
      return None;
    }
    return Some(PositionIn(payload.value));
  }

  // ---------------------------------------------------------------- agreement

  /** `execute_command` for the writing commands: a failure is followed by a drain that discards
      some of the unread bytes. */
  method FirmwareExecute(bus: Bus, c: Command, found: nat) returns (r: Outcome)
    modifies bus
    ensures Executed(c, old(bus.View()), r, bus.View())
    ensures r == Refused ==> bus.pending == Drained(old(bus.pending), found)
    ensures r == Failed ==>
              bus.pending == [] ||
              Weight(bus.View()) + (if found < 256 then found else 256) <= Weight(old(bus.View()))
  {
    match c {
      case StartMotor(id, counterClockwise, speed, acceleration) =>
        r := FirmwareStartMotor(bus, id, counterClockwise, speed, acceleration);
      case StopMotor(id) => r := FirmwareStopMotor(bus, id);
      case SetPosition(id, position, acceleration, torqueLimit) =>
        r := FirmwareMovePosition(bus, id, position, acceleration, torqueLimit);
    }
    if r != Done {
      bus.Drain(found);
    }
  }

  method HostExecute(bus: Bus, c: Command) returns (r: Outcome)
    modifies bus
    ensures Executed(c, old(bus.View()), r, bus.View())
  {
    match c {
      case StartMotor(id, counterClockwise, speed, acceleration) =>
        r := HostStartMotor(bus, id, counterClockwise, speed, acceleration);
      case StopMotor(id) => r := HostStopMotor(bus, id);
      case SetPosition(id, position, acceleration, torqueLimit) =>
        r := HostMovePosition(bus, id, position, acceleration, torqueLimit);
    }
  }

  lemma SameEnd(c: Command, l: Line, r1: Outcome, m1: Line, r2: Outcome, m2: Line)
    requires Executed(c, l, r1, m1) && Executed(c, l, r2, m2)
    ensures r1 == r2 && m1.script == m2.script && m1.sent == m2.sent
    ensures r1 == Done ==> m1 == m2
  {
  }

  method ExecuteOnBoth(mcu: Bus, pc: Bus, c: Command, found: nat) returns (r1: Outcome, r2: Outcome)
    requires mcu != pc && mcu.View() == pc.View()
    modifies mcu, pc
    ensures r1 == r2 && mcu.script == pc.script && mcu.sent == pc.sent
    ensures r1 == Refused <==> !IsValid(c)
    ensures r1 == Done ==> mcu.View() == pc.View()
  {
    ghost var l := mcu.View();
    r1 := FirmwareExecute(mcu, c, found);
    r2 := HostExecute(pc, c);
    SameEnd(c, l, r1, mcu.View(), r2, pc.View());
  }

  /** For any commands, valid or not, on one continuing stream of replies, both paths put
      byte-identical packets on the bus and end each command alike up to the first that is refused or
      fails, that one included; as long as none has, the same bytes are left unread on both sides. */
  method PathsAgree(commands: seq<Command>, script: seq<Transaction>, pending: seq<byte>, found: nat)
    returns (firmware: Line, host: Line, firmwareEnds: seq<Outcome>, hostEnds: seq<Outcome>)
    ensures firmware.sent == host.sent && firmware.script == host.script && firmwareEnds == hostEnds
    ensures |firmwareEnds| <= |commands|
    ensures forall k :: 0 <= k < |firmwareEnds| ==> (firmwareEnds[k] == Refused <==> !IsValid(commands[k]))
    ensures forall k :: 0 <= k < |firmwareEnds| - 1 ==> firmwareEnds[k] == Done
    ensures |firmwareEnds| < |commands| ==> firmwareEnds != [] && firmwareEnds[|firmwareEnds| - 1] != Done
    ensures (forall k :: 0 <= k < |firmwareEnds| ==> firmwareEnds[k] == Done) ==> firmware.pending == host.pending
  {
    var mcu := new Bus(script, pending);
    var pc := new Bus(script, pending);
    firmwareEnds, hostEnds := [], [];
    while |firmwareEnds| < |commands|
      invariant fresh(mcu) && fresh(pc) && mcu != pc
      invariant mcu.View() == pc.View() && firmwareEnds == hostEnds && |firmwareEnds| <= |commands|
      invariant forall k :: 0 <= k < |firmwareEnds| ==> IsValid(commands[k]) && firmwareEnds[k] == Done
    {
      var c := commands[|firmwareEnds|];
      var r1, r2 := ExecuteOnBoth(mcu, pc, c, found);
      firmwareEnds, hostEnds := firmwareEnds + [r1], hostEnds + [r2];
      if r1 != Done {
        break;
      }
    }
    firmware, host := mcu.View(), pc.View();
  }

  /** The same for reading a position, including the value and the bytes left unread behind it. */
  method PositionPathsAgree(id: byte, script: seq<Transaction>, pending: seq<byte>)
    returns (firmware: Line, host: Line, firmwareEnd: Option<int>, hostEnd: Option<int>)
    ensures firmware.sent == host.sent && firmware.script == host.script && firmwareEnd == hostEnd
    ensures firmwareEnd.Some? ==> firmware.pending == host.pending
  {
    var mcu := new Bus(script, pending);
    var pc := new Bus(script, pending);
    ghost var input := Input(mcu.View());
    firmwareEnd := FirmwareReadPosition(mcu, id);
    hostEnd := HostReadPosition(pc, id);
    firmware, host := mcu.View(), pc.View();
    if firmwareEnd.Some? && hostEnd.Some? {
      OnlyOnePosition(input, id, firmwareEnd.value, firmware.pending, hostEnd.value, host.pending);
    }
  }

  lemma OnlyOnePosition(input: seq<byte>, id: byte, x: int, xRest: seq<byte>, y: int, yRest: seq<byte>)
    requires ReportsPosition(input, id, x, xRest) && ReportsPosition(input, id, y, yRest)
    ensures x == y && xRest == yRest
  {
    var p, c: nat :| |p| == 2 && IsReply(input, id, p, c) && x == PositionIn(p) &&
                     c <= |input| && xRest == input[c..];
    OnlyOnePayload(input, id, p, c);
  }
}
