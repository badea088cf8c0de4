/** What the echo filter does to STS traffic: requests written, then what the adapter delivers. */
module EchoReplies {
  import opened Bytes
  import opened Sts
  import opened EchoFilter

  /** The length byte makes packets self-delimiting: none continues another. */
  lemma PacketsDoNotNest(id: byte, kind: byte, a: seq<byte>, id': byte, kind': byte, b: seq<byte>)
    requires |a| <= 0xfd && |b| <= 0xfd && Packet(id, kind, a) <= Packet(id', kind', b)
    ensures id == id' && kind == kind' && a == b
  {
    var p, q := Packet(id, kind, a), Packet(id', kind', b);
    assert p[2] == id && p[3] == |a| + 2 && p[4] == kind && p[5..|p| - 1] == a;
    assert q[2] == id' && q[3] == |b| + 2 && q[4] == kind' && q[5..|q| - 1] == b;
    assert p == q[..|p|] == q;
  }

  // ---------------------------------------------------------------- no echo

  /** Nothing has been received: requests were written and the deadline was looked at. */
  predicate OnlyWrites(ops: seq<Operation>) {
    forall i :: 0 <= i < |ops| ==> !ops[i].Received?
  }

  lemma {:induction false} RunConcat(s: Echo, a: seq<Operation>, b: seq<Operation>)
    requires Valid(s)
    ensures var (t, i1) := Run(s, a);
            var (u, i2) := Run(t, b);
            Run(s, a + b) == (u, i1 + i2)
    decreases |a|
  {
    if a == [] {
      assert a + b == b && [] + Run(s, b).1 == Run(s, b).1;
    } else {
      assert (a + b)[0] == a[0] && (a + b)[1..] == a[1..] + b;
      var (t, items) := Step(s, a[0]);
      RunConcat(t, a[1..], b);
      var (u, i1) := Run(t, a[1..]);
      assert items + (i1 + Run(u, b).1) == (items + i1) + Run(u, b).1;
    }
  }

  /** Requests pile up: with nothing held, expiry forgets none of them. */
  lemma {:induction false} WritesPileUp(s: Echo, ops: seq<Operation>)
    requires Valid(s) && s.candidate == [] && OnlyWrites(ops)
    ensures var (t, items) := Run(s, ops);
            t.candidate == [] && t.expected == s.expected + AllWritten(ops) && Read(Output, items) == []
    decreases |ops|
  {
    if ops == [] {
      assert s.expected + [] == s.expected;
    } else {
      var t := Step(s, ops[0]).0;
      WriteKeepsQuiet(s, ops[0]);
      WritesPileUp(t, ops[1..]);
      QuietStart(s, ops, t);
      Regroup(s.expected, WrittenBy(ops[0]), AllWritten(ops[1..]));
    }
  }

  lemma WriteKeepsQuiet(s: Echo, op: Operation)
    requires Valid(s) && s.candidate == [] && !op.Received?
    ensures var (t, items) := Step(s, op);
            items == [] && t.candidate == [] && t.expected == s.expected + WrittenBy(op)
  {
    assert s.expected + [] == s.expected;
  }

  lemma QuietStart(s: Echo, ops: seq<Operation>, t: Echo)
    requires Valid(s) && Valid(t) && ops != [] && Step(s, ops[0]) == (t, [])
    ensures Run(s, ops) == Run(t, ops[1..])
  {
    NothingBefore(Run(t, ops[1..]).1);
  }

  lemma NothingBefore(items: seq<Item>)
    ensures [] + items == items
  {
  }

  lemma Regroup(a: seq<byte>, b: seq<byte>, c: seq<byte>)
    ensures (a + b) + c == a + (b + c)
  {
  }

  /** From an adapter that echoes, after any number of writes, whatever follows the complete echo is
      forwarded untouched. */
  lemma ReplyBehindEchoPasses(ops: seq<Operation>, reply: seq<byte>)
    requires OnlyWrites(ops) && AllWritten(ops) != []
    ensures var (t, items) := Run(Clear, ops + [Received(AllWritten(ops) + reply)]);
            t.candidate == t.expected == [] && Read(Output, items) == reply
  {
    var echo, s := AllWritten(ops), Run(Clear, ops).0;
    WritesPileUp(Clear, ops);
    assert [] + echo == echo && s.candidate + (echo + reply) == echo + reply;
    FilterAgainstEcho(s, echo + reply);
    assert (echo + reply)[|echo|..] == reply;
    ReceivedLast(ops, echo + reply);
  }

  /** The last reception of a run, seen from the state before it. */
  lemma ReceivedLast(ops: seq<Operation>, input: seq<byte>)
    requires OnlyWrites(ops)
    ensures var s := Run(Clear, ops).0;
            var (t, items) := Run(Clear, ops + [Received(input)]);
            t == Filter(s, input).0 && Read(Output, items) == Read(Output, Filter(s, input).1)
  {
    var (s, before) := Run(Clear, ops);
    WritesPileUp(Clear, ops);
    RunConcat(Clear, ops, [Received(input)]);
    RunOne(s, Received(input));
    ReadConcat(Output, before, Filter(s, input).1);
    assert [] + Read(Output, Filter(s, input).1) == Read(Output, Filter(s, input).1);
  }

  /** What becomes of a packet that arrives whole while `pending` is awaited and nothing is held. */
  datatype Fate = Passed | Swallowed | HeldBack

  /** The oldest pending request alone decides, and equality with it alone matters. */
  function FateOf(reply: seq<byte>, oldest: seq<byte>, others: seq<byte>): Fate {
    if reply != oldest then Passed else if others == [] then Swallowed else HeldBack
  }

  ghost predicate HasFate(fate: Fate, s: Echo, reply: seq<byte>, t: Echo, output: seq<byte>) {
    match fate
    case Passed => t == Reset(s) && output == reply
    case Swallowed => t == Reset(s) && output == []
    case HeldBack => t == s.(candidate := reply) && output == []
  }

  lemma PacketMeetsEcho(s: Echo, id: byte, instruction: byte, a: seq<byte>, others: seq<byte>,
                        id': byte, error: byte, b: seq<byte>)
    requires |a| <= 0xfd && |b| <= 0xfd
    requires s.candidate == [] && s.expected == Packet(id, instruction, a) + others
    ensures Valid(s)
    ensures var request, reply := Packet(id, instruction, a), Packet(id', error, b);
            var (t, items) := Filter(s, reply);
            HasFate(FateOf(reply, request, others), s, reply, t, Read(Output, items))
  {
    var request, reply := Packet(id, instruction, a), Packet(id', error, b);
    FilterAgainstEcho(s, reply);
    assert s.candidate + reply == reply;
    if reply == request {
      assert request + others == s.expected && (others == [] ==> s.expected == reply);
    } else {
      NeitherIsPrefix(request, reply, others, id, instruction, a, id', error, b);
    }
  }

  lemma NeitherIsPrefix(request: seq<byte>, reply: seq<byte>, others: seq<byte>,
                        id: byte, instruction: byte, a: seq<byte>, id': byte, error: byte, b: seq<byte>)
    requires |a| <= 0xfd && |b| <= 0xfd && request != reply
    requires request == Packet(id, instruction, a) && reply == Packet(id', error, b)
    ensures !(request + others <= reply) && !(reply <= request + others)
  {
    PrefixesMeet(request, others, reply);
    if request <= reply {
      PacketsDoNotNest(id, instruction, a, id', error, b);
    }
    if reply <= request {
      PacketsDoNotNest(id', error, b, id, instruction, a);
    }
  }

  lemma PrefixesMeet(p: seq<byte>, others: seq<byte>, q: seq<byte>)
    ensures p + others <= q ==> p <= q
    ensures q <= p + others ==> q <= p || p <= q
  {
    var whole := p + others;
    assert p == whole[..|p|];
    if q <= whole {
      var n := if |q| <= |p| then |q| else |p|;
      assert q[..n] == whole[..n] == p[..n];
    }
  }

  /** From an adapter that does not echo, after any number of unanswered requests, a status packet is
      forwarded whole if and only if it differs from the oldest of them, whichever it answers. An
      equal one is swallowed when that request is the only one pending, and held back otherwise. */
  lemma ReplyAgainstPendingRequests(
      ops: seq<Operation>, id: byte, instruction: byte, a: seq<byte>, others: seq<byte>,
      id': byte, error: byte, b: seq<byte>)
    requires |a| <= 0xfd && |b| <= 0xfd
    requires OnlyWrites(ops) && AllWritten(ops) == Packet(id, instruction, a) + others
    ensures var request, reply := Packet(id, instruction, a), Packet(id', error, b);
            var (t, items) := Run(Clear, ops + [Received(reply)]);
            HasFate(FateOf(reply, request, others), Run(Clear, ops).0, reply, t, Read(Output, items))
  {
    var reply := Packet(id', error, b);
    WritesPileUp(Clear, ops);
    assert [] + AllWritten(ops) == AllWritten(ops);
    PacketMeetsEcho(Run(Clear, ops).0, id, instruction, a, others, id', error, b);
    ReceivedLast(ops, reply);
  }

  lemma RunOne(s: Echo, op: Operation)
    requires Valid(s)
    ensures Run(s, [op]) == Step(s, op)
  {
    var (t, items) := Step(s, op);
    assert [op][1..] == [] && Run(t, []) == (t, []) && items + [] == items;
  }

  /** A packet held back is only late: past the deadline the next look forwards it whole, and every
      pending request is forgotten. */
  lemma HeldBackIsReleased(s: Echo, reply: seq<byte>, now: real)
    requires Valid(s) && s.candidate == reply != [] && s.deadline <= now
    ensures var (t, items) := Step(s, FlushExpired(now));
            t == Reset(s) && Read(Output, items) == reply
  {
    FlushOutput(reply, s.expected);
  }

  /** The case of one request: a status packet is forwarded whole if and only if it is not byte for
      byte that request; an identical one is taken for the echo. */
  lemma ReplyToOnlyRequest(
      id: byte, instruction: byte, a: seq<byte>, id': byte, error: byte, b: seq<byte>, now: real)
    requires |a| <= 0xfd && |b| <= 0xfd
    ensures var request, reply := Packet(id, instruction, a), Packet(id', error, b);
            var (t, items) := Run(Clear, [Wrote(request, now), Received(reply)]);
            && t.candidate == t.expected == []
            && (Read(Output, items) == reply <==> !(id == id' && instruction == error && a == b))
            && (id == id' && instruction == error && a == b ==> Read(Output, items) == [])
  {
    var request, reply := Packet(id, instruction, a), Packet(id', error, b);
    OneWriteThenInput(request, reply, now);
    if request <= reply {
      PacketsDoNotNest(id, instruction, a, id', error, b);
      assert reply[|request|..] == [];
    } else if reply <= request {
      PacketsDoNotNest(id', error, b, id, instruction, a);
    }
  }

  /** So a servo that answers a ping with status 0x01 goes unheard on such an adapter. */
  lemma PingAnsweredWithStatusOneIsSwallowed(id: byte, now: real)
    ensures var ping, reply := Packet(id, 0x01, []), Packet(id, 0x01, []);
            DecodeStatusPacket(reply[2..], id) == Ok(StatusPacket(0x01, [])) &&
            Read(Output, Run(Clear, [Wrote(ping, now), Received(reply)]).1) == []
  {
    ReplyToOnlyRequest(id, 0x01, [], id, 0x01, [], now);
    DecodeUndoesEncode(id, 0x01, [], id);
    assert Packet(id, 0x01, [])[2..] == Body(id, 0x01, []);
  }
}
