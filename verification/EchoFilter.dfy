/** The UART bridge's filter that drops an adapter's own transmit echo. */
module EchoFilter {
  import opened Bytes

  const ECHO_GRACE_SECONDS: real := 0.010

  /** Bytes whose echo is awaited, the part of it seen so far, and when waiting ends. */
  datatype Echo = Echo(expected: seq<byte>, candidate: seq<byte>, deadline: real)

  const Clear := Echo([], [], 0.0)

  /** The held bytes are a strict prefix of the awaited echo, or nothing is awaited or held. */
  predicate Valid(s: Echo) {
    || s.expected == s.candidate == []
    || (|s.candidate| < |s.expected| && s.candidate == s.expected[..|s.candidate|])
  }

  /** Ledger entries: received bytes are forwarded or dropped, written bytes are matched by a
      dropped echo or abandoned. */
  datatype Item = Forwarded(bytes: seq<byte>) | Dropped(bytes: seq<byte>) | Abandoned(bytes: seq<byte>)

  function Reset(s: Echo): Echo {
    s.(expected := [], candidate := [])
  }

  function FilterByte(s: Echo, b: byte): (r: (Echo, seq<Item>))
    requires Valid(s)
    ensures Valid(r.0)
  {
    if s.expected == [] then (s, [Forwarded([b])])
    else
      var held := s.candidate + [b];
      if b != s.expected[|s.candidate|] then (Reset(s), [Forwarded(held), Abandoned(s.expected)])
      else if |held| == |s.expected| then (Reset(s), [Dropped(held)])
      else (s.(candidate := held), [])
  }

  function Filter(s: Echo, payload: seq<byte>): (r: (Echo, seq<Item>))
    requires Valid(s)
    ensures Valid(r.0)
    decreases |payload|
  {
    if payload == [] then (s, [])
    else
      var (t, items) := FilterByte(s, payload[0]);
      var (u, later) := Filter(t, payload[1..]);
      (u, items + later)
  }

  datatype Operation =
    | Wrote(payload: seq<byte>, now: real)
    | Received(payload: seq<byte>)
    | FlushExpired(now: real)

  function Step(s: Echo, op: Operation): (r: (Echo, seq<Item>))
    requires Valid(s)
    ensures Valid(r.0)
  {
    match op
    case Wrote(payload, now) =>
      (s.(expected := s.expected + payload, deadline := now + ECHO_GRACE_SECONDS), [])
    case Received(payload) => Filter(s, payload)
    case FlushExpired(now) =>
      if s.candidate == [] || now < s.deadline then (s, [])
      else (Reset(s), [Forwarded(s.candidate), Abandoned(s.expected)])
  }

  /** A whole run: the final state and the ledger. */
  function Run(s: Echo, ops: seq<Operation>): (r: (Echo, seq<Item>))
    requires Valid(s)
    ensures Valid(r.0)
    decreases |ops|
  {
    if ops == [] then (s, [])
    else
      var (t, items) := Step(s, ops[0]);
      var (u, later) := Run(t, ops[1..]);
      (u, items + later)
  }

  // ---------------------------------------------------------------- ledgers

  /** Three readings of a ledger: bytes handed to the other adapter, received bytes accounted for,
      and written bytes no longer awaited. */
  datatype Reading = Output | Accounted | Settled

  function Share(reading: Reading, item: Item): seq<byte> {
    match reading
    case Output => if item.Forwarded? then item.bytes else []
    case Accounted => if item.Abandoned? then [] else item.bytes
    case Settled => if item.Forwarded? then [] else item.bytes
  }

  function Read(reading: Reading, items: seq<Item>): seq<byte> {
    if items == [] then [] else Share(reading, items[0]) + Read(reading, items[1..])
  }

  function ReceivedBy(op: Operation): seq<byte> {
    if op.Received? then op.payload else []
  }

  function WrittenBy(op: Operation): seq<byte> {
    if op.Wrote? then op.payload else []
  }

  function AllReceived(ops: seq<Operation>): seq<byte> {
    if ops == [] then [] else ReceivedBy(ops[0]) + AllReceived(ops[1..])
  }

  function AllWritten(ops: seq<Operation>): seq<byte> {
    if ops == [] then [] else WrittenBy(ops[0]) + AllWritten(ops[1..])
  }

  lemma {:induction false} ReadConcat(reading: Reading, a: seq<Item>, b: seq<Item>)
    ensures Read(reading, a + b) == Read(reading, a) + Read(reading, b)
  {
    if a == [] {
      assert a + b == b;
    } else {
      assert (a + b)[1..] == a[1..] + b;
      ReadConcat(reading, a[1..], b);
    }
  }

  lemma ReadShort(reading: Reading, x: Item, y: Item)
    ensures Read(reading, [x]) == Share(reading, x)
    ensures Read(reading, [x, y]) == Share(reading, x) + Share(reading, y)
  {
    assert [x][1..] == [] && [y][1..] == [] && [x, y][1..] == [y];
    assert Read(reading, [x]) == Share(reading, x) + [];
    assert Read(reading, [y]) == Share(reading, y) + [];
  }

  /** Nothing gets lost in one step: what was held plus what arrived is accounted for or still held,
      and what was awaited plus what was written is settled or still awaited. */
  ghost predicate Balanced(s: Echo, received: seq<byte>, written: seq<byte>, t: Echo, items: seq<Item>) {
    && s.candidate + received == Read(Accounted, items) + t.candidate
    && s.expected + written == Read(Settled, items) + t.expected
  }

  lemma ByteBalances(s: Echo, b: byte)
    requires Valid(s)
    ensures Balanced(s, [b], [], FilterByte(s, b).0, FilterByte(s, b).1)
  {
    var held := s.candidate + [b];
    ReadShort(Accounted, Forwarded([b]), Forwarded([b]));
    ReadShort(Settled, Forwarded([b]), Forwarded([b]));
    ReadShort(Accounted, Forwarded(held), Abandoned(s.expected));
    ReadShort(Settled, Forwarded(held), Abandoned(s.expected));
    ReadShort(Accounted, Dropped(held), Dropped(held));
    ReadShort(Settled, Dropped(held), Dropped(held));
  }

  lemma Chain(a: seq<byte>, b: seq<byte>, c: seq<byte>, x: seq<byte>, m: seq<byte>, y: seq<byte>, n: seq<byte>)
    requires a + b == x + m && m + c == y + n
    ensures a + (b + c) == (x + y) + n
  {
    calc {
      a + (b + c);
      (a + b) + c;
      (x + m) + c;
      x + (m + c);
      x + (y + n);
      (x + y) + n;
    }
  }

  lemma BalancesCompose(s: Echo, r1: seq<byte>, w1: seq<byte>, t: Echo, i1: seq<Item>,
                        r2: seq<byte>, w2: seq<byte>, u: Echo, i2: seq<Item>)
    requires Balanced(s, r1, w1, t, i1) && Balanced(t, r2, w2, u, i2)
    ensures Balanced(s, r1 + r2, w1 + w2, u, i1 + i2)
  {
    ReadConcat(Accounted, i1, i2);
    ReadConcat(Settled, i1, i2);
    Chain(s.candidate, r1, r2, Read(Accounted, i1), t.candidate, Read(Accounted, i2), u.candidate);
    Chain(s.expected, w1, w2, Read(Settled, i1), t.expected, Read(Settled, i2), u.expected);
  }

  lemma {:induction false} FilterBalances(s: Echo, payload: seq<byte>)
    requires Valid(s)
    ensures Balanced(s, payload, [], Filter(s, payload).0, Filter(s, payload).1)
    decreases |payload|
  {
    if payload != [] {
      var (t, items) := FilterByte(s, payload[0]);
      var (u, later) := Filter(t, payload[1..]);
      ByteBalances(s, payload[0]);
      FilterBalances(t, payload[1..]);
      BalancesCompose(s, [payload[0]], [], t, items, payload[1..], [], u, later);
      assert payload == [payload[0]] + payload[1..];
    }
  }

  lemma StepBalances(s: Echo, op: Operation)
    requires Valid(s)
    ensures Balanced(s, ReceivedBy(op), WrittenBy(op), Step(s, op).0, Step(s, op).1)
  {
    match op
    case Received(payload) =>
      FilterBalances(s, payload);
    case Wrote(payload, _) =>
    case FlushExpired(_) =>
      ReadShort(Accounted, Forwarded(s.candidate), Abandoned(s.expected));
      ReadShort(Settled, Forwarded(s.candidate), Abandoned(s.expected));
  }

  /** Over any run from a clear filter, the received bytes are, in order, exactly the forwarded and
      the dropped ones followed by the held ones; and the written bytes are, in order, exactly the
      dropped echoes and the abandoned ones followed by the awaited ones. */
  lemma {:induction false} NothingIsLostOrReordered(s: Echo, ops: seq<Operation>)
    requires Valid(s)
    ensures Balanced(s, AllReceived(ops), AllWritten(ops), Run(s, ops).0, Run(s, ops).1)
    decreases |ops|
  {
    if ops != [] {
      var (t, items) := Step(s, ops[0]);
      var (u, later) := Run(t, ops[1..]);
      StepBalances(s, ops[0]);
      NothingIsLostOrReordered(t, ops[1..]);
      BalancesCompose(s, ReceivedBy(ops[0]), WrittenBy(ops[0]), t, items,
                      AllReceived(ops[1..]), AllWritten(ops[1..]), u, later);
    }
  }

  // ---------------------------------------------------------------- chunks

  /** Cutting the received bytes differently changes neither the state nor the ledger. */
  lemma {:induction false} FilterIsChunkIndependent(s: Echo, a: seq<byte>, b: seq<byte>)
    requires Valid(s)
    ensures var (t, i1) := Filter(s, a);
            var (u, i2) := Filter(t, b);
            Filter(s, a + b) == (u, i1 + i2)
    decreases |a|
  {
    if a == [] {
      assert a + b == b && [] + Filter(s, b).1 == Filter(s, b).1;
    } else {
      assert (a + b)[0] == a[0] && (a + b)[1..] == a[1..] + b;
      var (t, items) := FilterByte(s, a[0]);
      FilterIsChunkIndependent(t, a[1..], b);
      var (u, i1) := Filter(t, a[1..]);
      var (v, i2) := Filter(u, b);
      assert items + (i1 + i2) == (items + i1) + i2;
    }
  }

  // ---------------------------------------------------------------- one write

  lemma {:induction false} IdleFilterForwards(s: Echo, r: seq<byte>)
    requires s.expected == s.candidate == []
    ensures Filter(s, r).0 == s && Read(Output, Filter(s, r).1) == r
    decreases |r|
  {
    if r != [] {
      var (t, items) := FilterByte(s, r[0]);
      IdleFilterForwards(t, r[1..]);
      ReadConcat(Output, items, Filter(t, r[1..]).1);
      ReadShort(Output, items[0], items[0]);
    }
  }

  /** What comes out depends only on how the held and received bytes compare with the awaited echo. */
  ghost predicate Compared(s: Echo, seen: seq<byte>, t: Echo, output: seq<byte>) {
    if s.expected <= seen then t == Reset(s) && output == seen[|s.expected|..]
    else if seen <= s.expected then t == s.(candidate := seen) && output == []
    else t == Reset(s) && output == seen
  }

  lemma FilterCons(s: Echo, r: seq<byte>)
    requires Valid(s) && r != []
    ensures var (t, items) := FilterByte(s, r[0]);
            var (u, later) := Filter(t, r[1..]);
            Filter(s, r).0 == u &&
            Read(Output, Filter(s, r).1) == Read(Output, items) + Read(Output, later)
  {
    var (t, items) := FilterByte(s, r[0]);
    ReadConcat(Output, items, Filter(t, r[1..]).1);
  }

  lemma {:induction false} FilterAgainstEcho(s: Echo, r: seq<byte>)
    requires Valid(s) && s.expected != []
    ensures Compared(s, s.candidate + r, Filter(s, r).0, Read(Output, Filter(s, r).1))
    decreases |r|
  {
    if r == [] {
      assert s.candidate + r == s.candidate;
    } else {
      var t := FilterByte(s, r[0]).0;
      FilterCons(s, r);
      FilterOne(s, r[0]);
      if t.expected != [] {
        FilterAgainstEcho(t, r[1..]);
        EchoContinues(s, r, Filter(t, r[1..]).0, Read(Output, Filter(t, r[1..]).1));
      } else {
        IdleFilterForwards(t, r[1..]);
        EchoDecided(s, r);
      }
    }
  }

  /** One more byte of the echo is held. */
  lemma EchoContinues(s: Echo, r: seq<byte>, u: Echo, output: seq<byte>)
    requires r != []
    requires var held := s.candidate + [r[0]];
             Compared(s.(candidate := held), held + r[1..], u, output)
    ensures Compared(s, s.candidate + r, u, [] + output)
  {
    assert (s.candidate + [r[0]]) + r[1..] == s.candidate + r;
    assert [] + output == output;
  }

  /** The byte that ends the wait, by completing the echo or by departing from it. */
  lemma EchoDecided(s: Echo, r: seq<byte>)
    requires Valid(s) && s.expected != [] && r != []
    requires r[0] != s.expected[|s.candidate|] || |s.candidate| + 1 == |s.expected|
    ensures Compared(s, s.candidate + r, Reset(s),
              (if r[0] != s.expected[|s.candidate|] then s.candidate + [r[0]] else []) + r[1..])
  {
    var seen := s.candidate + r;
    assert seen[|s.candidate|] == r[0];
    assert (s.candidate + [r[0]]) + r[1..] == seen;
    if r[0] == s.expected[|s.candidate|] {
      assert seen[..|s.expected|] == s.expected;
      assert seen[|s.expected|..] == r[1..];
      assert [] + r[1..] == r[1..];
    }
  }

  /** From a clear filter, one write `p` followed by input `r` forwards `r` without the echo when it
      starts with `p`, holds it back when it is only part of the echo, and forwards all of it
      otherwise. */
  lemma OneWriteThenInput(p: seq<byte>, r: seq<byte>, now: real)
    requires p != []
    ensures var (t, items) := Run(Clear, [Wrote(p, now), Received(r)]);
            if p <= r then t.candidate == t.expected == [] && Read(Output, items) == r[|p|..]
            else if r <= p then t.candidate == r && t.expected == p && Read(Output, items) == []
            else t.candidate == t.expected == [] && Read(Output, items) == r
  {
    var ops := [Wrote(p, now), Received(r)];
    var s := Step(Clear, ops[0]).0;
    assert ops[1..] == [ops[1]] && ops[1..][1..] == [];
    assert s.expected == [] + p == p && s.candidate + r == r;
    var (t, items) := Filter(s, r);
    assert Run(Clear, ops) == (t, items) by {
      assert Run(t, []) == (t, []);
      assert Run(s, ops[1..]) == (t, items + []);
      assert [] + (items + []) == items;
    }
    FilterAgainstEcho(s, r);
  }

  // ---------------------------------------------------------------- expiry

  /** Input in pieces, with looks at the deadline in between that all come before `deadline`. */
  predicate InputBefore(ops: seq<Operation>, deadline: real) {
    forall i :: 0 <= i < |ops| ==> ops[i].Received? || (ops[i].FlushExpired? && ops[i].now < deadline)
  }

  /** Looking at the deadline before it has come changes nothing, however the input is cut. */
  lemma {:induction false} EarlyLooksDoNothing(s: Echo, ops: seq<Operation>)
    requires Valid(s) && InputBefore(ops, s.deadline)
    ensures Run(s, ops) == Filter(s, AllReceived(ops)) && Run(s, ops).0.deadline == s.deadline
    decreases |ops|
  {
    if ops != [] {
      var (t, items) := Step(s, ops[0]);
      EarlyStep(s, ops[0]);
      assert InputBefore(ops[1..], t.deadline);
      EarlyLooksDoNothing(t, ops[1..]);
      FilterIsChunkIndependent(s, ReceivedBy(ops[0]), AllReceived(ops[1..]));
    }
  }

  lemma EarlyStep(s: Echo, op: Operation)
    requires Valid(s) && (op.Received? || (op.FlushExpired? && op.now < s.deadline))
    ensures Step(s, op) == Filter(s, ReceivedBy(op)) && Step(s, op).0.deadline == s.deadline
  {
    FilterKeepsDeadline(s, ReceivedBy(op));
  }

  lemma {:induction false} FilterKeepsDeadline(s: Echo, payload: seq<byte>)
    requires Valid(s)
    ensures Filter(s, payload).0.deadline == s.deadline
    decreases |payload|
  {
    if payload != [] {
      FilterKeepsDeadline(FilterByte(s, payload[0]).0, payload[1..]);
    }
  }

  /** With nothing held: a write at `written`, the awaited echo or a part of it in any pieces within the
      grace period of 10 ms, and a look at `now`. Nothing is forwarded and the complete echo leaves the
      filter clear; an incomplete one is forwarded whole if and only if the grace period is over. */
  lemma EchoWithinGrace(s0: Echo, p: seq<byte>, written: real, ops: seq<Operation>, now: real)
    requires Valid(s0) && s0.candidate == [] && s0.expected + p != []
    requires InputBefore(ops, written + 0.010) && AllReceived(ops) <= s0.expected + p
    ensures var s, awaited, input := Step(s0, Wrote(p, written)).0, s0.expected + p, AllReceived(ops);
            var (t, items) := Run(s, ops);
            var (u, last) := Step(t, FlushExpired(now));
            && Read(Output, items) == []
            && (input == awaited ==> t.candidate == t.expected == [])
            && (input != awaited ==> t.candidate == input && t.expected == awaited)
            && (if input != awaited && input != [] && now >= written + 0.010
                then u.candidate == u.expected == [] && Read(Output, last) == input
                else u == t && last == [])
  {
    var s, awaited, input := Step(s0, Wrote(p, written)).0, s0.expected + p, AllReceived(ops);
    EarlyLooksDoNothing(s, ops);
    FilterAgainstEcho(s, input);
    assert s.candidate + input == input;
    assert awaited <= input ==> input[|awaited|..] == [] && input == awaited;
    FlushOutput(input, awaited);
  }

  // ---------------------------------------------------------------- the filter object

  class LocalEchoFilter {
    var expected: seq<byte>
    var candidate: seq<byte>
    var deadline: real

    ghost function Value(): Echo
      reads this
    {
      Echo(expected, candidate, deadline)
    }

    constructor ()
      ensures Value() == Clear
    {
      expected, candidate, deadline := [], [], 0.0;
    }

    method RecordWrite(payload: seq<byte>, now: real)
      requires Valid(Value())
      modifies this
      ensures Value() == Step(old(Value()), Wrote(payload, now)).0
    {
      expected := expected + payload;
      deadline := now + ECHO_GRACE_SECONDS;
    }

    /** One turn of the loop in `filter`. */
    method Accept(b: byte) returns (forwarded: seq<byte>)
      requires Valid(Value())
      modifies this
      ensures Valid(Value())
      ensures Value() == FilterByte(old(Value()), b).0
      ensures forwarded == Read(Output, FilterByte(old(Value()), b).1)
    {
      FilterOne(Value(), b);
      if expected == [] {
        return [b];
      }
      candidate := candidate + [b];
      var position := |candidate| - 1;
      if b != expected[position] {
        forwarded := candidate;
        candidate, expected := [], [];
        return;
      }
      if |candidate| == |expected| {
        candidate, expected := [], [];
      }
      forwarded := [];
    }

    method FilterInput(payload: seq<byte>) returns (forwarded: seq<byte>)
      requires Valid(Value())
      modifies this
      ensures Valid(Value())
      ensures var (t, items) := Filter(old(Value()), payload);
              Value() == t && forwarded == Read(Output, items)
    {
      forwarded := [];
      ghost var done: seq<Item> := [];
      var k := 0;
      while k < |payload|
        invariant 0 <= k <= |payload| && Valid(Value())
        invariant (Value(), done) == Filter(old(Value()), payload[..k])
        invariant forwarded == Read(Output, done)
      {
        ghost var items := FilterByte(Value(), payload[k]).1;
        FilterNext(old(Value()), payload, k, Value(), done);
        var more := Accept(payload[k]);
        forwarded, done, k := forwarded + more, done + items, k + 1;
      }
      assert payload[..k] == payload;
    }

    method Flush(now: real) returns (forwarded: seq<byte>)
      requires Valid(Value())
      modifies this
      ensures var (t, items) := Step(old(Value()), FlushExpired(now));
              Value() == t && forwarded == Read(Output, items)
    {
      if candidate == [] || now < deadline {
        return [];
      }
      forwarded := candidate;
      candidate, expected := [], [];
      FlushOutput(forwarded, old(expected));
    }
  }

  lemma FilterNext(s: Echo, payload: seq<byte>, k: nat, t: Echo, done: seq<Item>)
    requires Valid(s) && Valid(t) && k < |payload| && (t, done) == Filter(s, payload[..k])
    ensures var (u, items) := FilterByte(t, payload[k]);
            && Filter(s, payload[..k + 1]) == (u, done + items)
            && Read(Output, done + items) == Read(Output, done) + Read(Output, items)
  {
    assert payload[..k + 1] == payload[..k] + [payload[k]];
    FilterIsChunkIndependent(s, payload[..k], [payload[k]]);
    FilterOne(t, payload[k]);
    ReadConcat(Output, done, FilterByte(t, payload[k]).1);
  }

  lemma FlushOutput(a: seq<byte>, b: seq<byte>)
    ensures Read(Output, [Forwarded(a), Abandoned(b)]) == a
  {
    ReadShort(Output, Forwarded(a), Abandoned(b));
  }

  lemma FilterOne(s: Echo, b: byte)
    requires Valid(s)
    ensures Filter(s, [b]) == FilterByte(s, b)
    ensures var (t, items) := FilterByte(s, b);
            Read(Output, items) == if s.expected == [] then [b]
                             else if b != s.expected[|s.candidate|] then s.candidate + [b] else []
  {
    assert [b][1..] == [];
    var items := FilterByte(s, b).1;
    assert items + [] == items;
    if |items| == 2 {
      FlushOutput(s.candidate + [b], s.expected);
    } else if |items| == 1 {
      ReadShort(Output, items[0], items[0]);
    }
  }
}
