/** Scanning a range of servo addresses, and the JSON reply that carries the result. */
module ServoScan {
  import opened Bytes
  import opened Sts
  import opened StsReaders
  import opened ServoCommands

  const PING: byte := 0x01
  const MAX_SCAN_RESULTS := 253
  const JSON_RPC_BUFFER_SIZE := 1024

  /** Some error-free reply of this servo came back, whatever it carries. */
  ghost predicate Answered(reply: seq<byte>, id: byte) {
    exists p, c: nat :: IsReply(reply, id, p, c)
  }

  predicate ValidRange(startId: byte, endId: byte) {
    startId != 0 && startId <= endId && endId <= MAX_SERVO_ID
  }

  /** Transaction number `k` of a script; silence behind its end. */
  function Nth(script: seq<Transaction>, k: nat): Transaction {
    if k < |script| then script[k] else Transaction(true, [], 0)
  }

  predicate StrictlyIncreasing(ids: seq<byte>) {
    forall i, j :: 0 <= i < j < |ids| ==> ids[i] < ids[j]
  }

  /** The transport takes the first `n` packets. */
  ghost predicate Accepted(script: seq<Transaction>, n: nat) {
    forall k: nat :: k < n ==> Nth(script, k).accepted
  }

  /** The transport takes the first `k` packets and refuses the next. */
  ghost predicate FirstRefused(script: seq<Transaction>, k: nat) {
    Accepted(script, k) && !Nth(script, k).accepted
  }

  lemma AcceptedStep(script: seq<Transaction>, n: nat)
    ensures Accepted(script, n + 1) <==> Accepted(script, n) && Nth(script, n).accepted
  {
  }

  lemma RejectedStays(script: seq<Transaction>, n: nat, m: nat)
    requires n < m && !Nth(script, n).accepted
    ensures !Accepted(script, m)
  {
  }

  /** `ids` are, in increasing order, exactly the addresses from `startId` up to but excluding `upTo`
      that were heard. */
  ghost predicate Collected(ids: seq<byte>, startId: byte, upTo: nat, heard: byte -> bool) {
    && StrictlyIncreasing(ids)
    && (forall id: byte :: id in ids <==> startId <= id < upTo && heard(id))
  }

  lemma PushKeepsCollected(ids: seq<byte>, startId: byte, id: byte, heard: byte -> bool, heard': byte -> bool)
    requires startId <= id && Collected(ids, startId, id, heard)
    requires forall x: byte :: startId <= x < id ==> heard(x) == heard'(x)
    ensures Collected(if heard'(id) then ids + [id] else ids, startId, id + 1, heard')
  {
    assert forall x :: x in ids + [id] <==> x in ids || x == id;
    assert forall i :: 0 <= i < |ids| ==> ids[i] in ids;
  }

  /** Which servos answered, `inputs` being what the reader saw of each from `startId` on. */
  ghost function Hearing(startId: byte, inputs: seq<seq<byte>>): byte -> bool {
    (id: byte) => startId <= id < startId + |inputs| && Answered(inputs[id - startId], id)
  }

  lemma HearingGrows(startId: byte, inputs: seq<seq<byte>>, input: seq<byte>, id: byte)
    requires id == startId + |inputs|
    ensures forall x: byte :: startId <= x < id ==> Hearing(startId, inputs)(x) == Hearing(startId, inputs + [input])(x)
    ensures Hearing(startId, inputs + [input])(id) == Answered(input, id)
  {
  }

  /** `left` is an end of `before`, without at least its first `least` bytes. */
  ghost predicate IsRestFrom(before: seq<byte>, left: seq<byte>, least: nat) {
    exists c: nat :: c <= |before| && left == before[c..] && (c >= least || c == |before|)
  }

  /** What a drain takes at least, behind the ping number `k` that went unanswered. */
  ghost function Discarded(inputs: seq<seq<byte>>, script: seq<Transaction>, startId: byte, k: nat): nat
    requires k < |inputs| && startId + k < 256
  {
    if Answered(inputs[k], startId + k) then 0
    else Least(Nth(script, k))
  }

  function Least(t: Transaction): nat {
    if t.drained < 256 then t.drained else 256
  }

  /** What a reader saw: what was left of `before`, then the bytes that newly arrived. */
  ghost predicate Follows(before: seq<byte>, input: seq<byte>, arrived: seq<byte>, least: nat) {
    exists left :: IsRestFrom(before, left, least) && input == left + arrived
  }

  /** The inputs of successive pings continue one stream: each starts with what the one before, and the
      drain behind an unanswered one, left unread. */
  ghost predicate Carried(
      inputs: seq<seq<byte>>, pending: seq<byte>, script: seq<Transaction>, startId: byte)
    requires startId + |inputs| <= 256
  {
    && (inputs != [] ==> inputs[0] == pending + Nth(script, 0).reply)
    && (forall k :: 1 <= k < |inputs| ==>
          Follows(inputs[k - 1], inputs[k], Nth(script, k).reply, Discarded(inputs, script, startId, k - 1)))
  }

  /** What may still be unread before the next ping. */
  ghost predicate IsLeft(
      inputs: seq<seq<byte>>, pending: seq<byte>, script: seq<Transaction>, startId: byte, left: seq<byte>)
    requires startId + |inputs| <= 256
  {
    if inputs == [] then left == pending
    else IsRestFrom(inputs[|inputs| - 1], left, Discarded(inputs, script, startId, |inputs| - 1))
  }

  lemma CarriedGrows(inputs: seq<seq<byte>>, pending: seq<byte>, script: seq<Transaction>, startId: byte,
                     left: seq<byte>, input: seq<byte>)
    requires startId + |inputs| < 256
    requires Carried(inputs, pending, script, startId) && IsLeft(inputs, pending, script, startId, left)
    requires input == left + Nth(script, |inputs|).reply
    ensures Carried(inputs + [input], pending, script, startId)
  {
    var grown := inputs + [input];
    forall k | 1 <= k < |grown|
      ensures Follows(grown[k - 1], grown[k], Nth(script, k).reply, Discarded(grown, script, startId, k - 1))
    {
      assert grown[k - 1] == inputs[k - 1];
      assert Discarded(grown, script, startId, k - 1) == Discarded(inputs, script, startId, k - 1);
      if k < |inputs| {
        assert Follows(inputs[k - 1], inputs[k], Nth(script, k).reply, Discarded(inputs, script, startId, k - 1));
      }
    }
  }

  /** The packet each address is asked with. */
  function Pinging(): byte -> seq<byte> {
    (id: byte) => Packet(id, PING, [])
  }

  /** Strictly increasing addresses leave no room for more than the range has. */
  lemma {:induction false} IncreasingFits(ids: seq<byte>, low: nat, high: nat)
    requires StrictlyIncreasing(ids) && low <= high && forall id :: id in ids ==> low <= id < high
    ensures |ids| <= high - low
  {
    if ids != [] {
      var last := ids[|ids| - 1];
      var rest := ids[..|ids| - 1];
      assert forall id :: id in rest ==> id in ids;
      assert last in ids;
      IncreasingFits(rest, low, last);
    }
  }

  /** The script after `k` transactions. */
  function Left(script: seq<Transaction>, k: nat): seq<Transaction> {
    script[if k < |script| then k else |script|..]
  }

  lemma LeftStep(script: seq<Transaction>, k: nat)
    ensures Head(Left(script, k)) == Nth(script, k) && Tail(Left(script, k)) == Left(script, k + 1)
  {
  }

  /** What was sent before, followed by one packet for each of `count` addresses in order. */
  function Asked(before: seq<seq<byte>>, pings: byte -> seq<byte>, startId: byte, count: nat): seq<seq<byte>>
    requires startId + count <= 256
  {
    before + seq(count, i requires 0 <= i < count => pings(startId + i))
  }

  lemma AskedStep(before: seq<seq<byte>>, pings: byte -> seq<byte>, startId: byte, count: nat)
    requires startId + count < 256
    ensures Asked(before, pings, startId, count + 1) == Asked(before, pings, startId, count) + [pings(startId + count)]
  {
  }

  datatype Probe = Present | Absent | Broken

  method PingServo(bus: Bus, id: byte, ghost heard: bool, ghost ping: seq<byte>) returns (r: Probe)
    requires IsUnicast(id) && heard == Answered(Input(bus.View()), id)
    requires ping == Packet(id, PING, [])
    modifies bus
    ensures var t := Head(old(bus.script));
            && bus.script == Tail(old(bus.script)) && IsRest(Input(old(bus.View())), bus.pending)
            && bus.sent == (if t.accepted then old(bus.sent) + [ping] else old(bus.sent))
            && (r.Broken? <==> !t.accepted)
            && (t.accepted ==> (r.Present? <==> heard))
  {
    var status := FirmwareSend(bus, id, PING, []);
    return if status == Err(Transport) then Broken else if status.Ok? then Present else Absent;
  }

  lemma RestIsDrained(input: seq<byte>, middle: seq<byte>, found: nat)
    requires IsRest(input, middle)
    ensures IsRestFrom(input, Drained(middle, found), if found < 256 then found else 256)
  {
    var c: nat :| c <= |input| && middle == input[c..];
    var n := if found < 256 then found else 256;
    var d := if n < |middle| then n else |middle|;
    assert Drained(middle, found) == input[c + d..];
  }

  /** `scan_servos`: without a transport failure, in increasing order exactly the addresses in range
      that answered on the continuing stream, and never more than the result buffer holds. */
  method ScanServos(bus: Bus, startId: byte, endId: byte)
    returns (r: Result<seq<byte>, ServoFailure>, ghost inputs: seq<seq<byte>>)
    modifies bus
    ensures !ValidRange(startId, endId) ==> r == Err(InvalidArgument) && bus.View() == old(bus.View())
    ensures ValidRange(startId, endId) ==>
              (r.Ok? <==> Accepted(old(bus.script), endId - startId + 1))
    ensures ValidRange(startId, endId) && r.Err? ==> r == Err(Transport)
    ensures r == Err(Transport) ==>
              exists k: nat :: k <= endId - startId && FirstRefused(old(bus.script), k) &&
                bus.sent == Asked(old(bus.sent), Pinging(), startId, k)
    ensures r.Ok? ==> |inputs| == endId - startId + 1 && Carried(inputs, old(bus.pending), old(bus.script), startId)
    ensures r.Ok? ==> Collected(r.value, startId, endId + 1, Hearing(startId, inputs))
    ensures r.Ok? ==>
              bus.sent == Asked(old(bus.sent), Pinging(), startId, endId - startId + 1)
    ensures r.Ok? ==> |r.value| <= 253 && HostAccepts(r.value, startId, endId)
  {
    inputs := [];
    if startId == 0 || startId > endId || endId > MAX_SERVO_ID {
      return Err(InvalidArgument), inputs;
    }
    var ids, ok;
    ghost var asked;
    ids, ok, asked, inputs := ProbeAll(bus, startId, endId);
    if !ok {
      RejectedStays(old(bus.script), asked, endId - startId + 1);
      return Err(Transport), inputs;
    }
    IncreasingFits(ids, 1, endId + 1);
    return Ok(ids), inputs;
  }

  /** One turn of the probing loop: the address joins the list exactly when its servo answered. */
  method ProbeOne(bus: Bus, startId: byte, id: byte, ids: seq<byte>, ghost inputs: seq<seq<byte>>)
    returns (grown: seq<byte>, ok: bool, ghost input: seq<byte>)
    requires 1 <= startId <= id <= MAX_SERVO_ID && |inputs| == id - startId
    requires Collected(ids, startId, id, Hearing(startId, inputs))
    modifies bus
    ensures input == Input(old(bus.View()))
    ensures ok ==> IsRestFrom(input, bus.pending, if Answered(input, id) then 0 else Least(Head(old(bus.script))))
    ensures ok == Head(old(bus.script)).accepted && bus.script == Tail(old(bus.script))
    ensures ok ==> Collected(grown, startId, id + 1, Hearing(startId, inputs + [input]))
    ensures bus.sent == if ok then old(bus.sent) + [Pinging()(id)] else old(bus.sent)
  {
    input := Input(bus.View());
    var found := Head(bus.script).drained;
    IncreasingFits(ids, 1, id);
    assert |ids| < MAX_SCAN_RESULTS;  // so pushing into the fixed-capacity list cannot fail
    HearingGrows(startId, inputs, input, id);
    PushKeepsCollected(ids, startId, id, Hearing(startId, inputs), Hearing(startId, inputs + [input]));
    var probe := PingServo(bus, id, Answered(input, id), Pinging()(id));
    if !probe.Present? {
      ghost var middle := bus.pending;
      bus.Drain(found);
      RestIsDrained(input, middle, found);
    }
    return if probe.Present? then ids + [id] else ids, !probe.Broken?, input;
  }

  /** After `k` accepted pings: what was sent, heard and left unread, starting from line `l0`. */
  ghost predicate Progress(l0: Line, startId: byte, k: nat, l: Line, ids: seq<byte>, inputs: seq<seq<byte>>) {
    && startId + k <= 256 && |inputs| == k
    && l.script == Left(l0.script, k) && Accepted(l0.script, k) && l.sent == Asked(l0.sent, Pinging(), startId, k)
    && Carried(inputs, l0.pending, l0.script, startId) && IsLeft(inputs, l0.pending, l0.script, startId, l.pending)
    && Collected(ids, startId, startId + k, Hearing(startId, inputs))
  }

  lemma ProgressStep(l0: Line, startId: byte, k: nat, l: Line, ids: seq<byte>, inputs: seq<seq<byte>>,
                     m: Line, grown: seq<byte>, input: seq<byte>)
    requires Progress(l0, startId, k, l, ids, inputs) && startId + k < 256
    requires Head(l.script).accepted && m.script == Tail(l.script) && m.sent == l.sent + [Pinging()(startId + k)]
    requires input == Input(l)
    requires IsRestFrom(input, m.pending, if Answered(input, startId + k) then 0 else Least(Head(l.script)))
    requires Collected(grown, startId, startId + k + 1, Hearing(startId, inputs + [input]))
    ensures Progress(l0, startId, k + 1, m, grown, inputs + [input])
  {
    LeftStep(l0.script, k);
    AcceptedStep(l0.script, k);
    AskedStep(l0.sent, Pinging(), startId, k);
    CarriedGrows(inputs, l0.pending, l0.script, startId, l.pending, input);
  }

  method ProbeNext(bus: Bus, startId: byte, id: byte, ids: seq<byte>, ghost inputs: seq<seq<byte>>, ghost l0: Line)
    returns (grown: seq<byte>, ok: bool, ghost inputs': seq<seq<byte>>)
    requires 1 <= startId <= id <= MAX_SERVO_ID && Progress(l0, startId, id - startId, bus.View(), ids, inputs)
    modifies bus
    ensures if ok then Progress(l0, startId, id - startId + 1, bus.View(), grown, inputs')
            else FirstRefused(l0.script, id - startId) && bus.sent == Asked(l0.sent, Pinging(), startId, id - startId)
  {
    ghost var l, input := bus.View(), [];
    grown, ok, input := ProbeOne(bus, startId, id, ids, inputs);
    inputs' := inputs + [input];
    if ok {
      ProgressStep(l0, startId, id - startId, l, ids, inputs, bus.View(), grown, input);
    } else {
      ProgressStops(l0, startId, id - startId, l, ids, inputs);
    }
  }

  lemma ProgressStops(l0: Line, startId: byte, k: nat, l: Line, ids: seq<byte>, inputs: seq<seq<byte>>)
    requires Progress(l0, startId, k, l, ids, inputs) && !Head(l.script).accepted
    ensures FirstRefused(l0.script, k) && l.sent == Asked(l0.sent, Pinging(), startId, k)
  {
    LeftStep(l0.script, k);
  }

  /** The probing loop. */
  method ProbeAll(bus: Bus, startId: byte, endId: byte)
    returns (ids: seq<byte>, ok: bool, ghost asked: nat, ghost inputs: seq<seq<byte>>)
    requires ValidRange(startId, endId)
    modifies bus
    ensures ok ==> asked == endId - startId + 1 && Progress(old(bus.View()), startId, asked, bus.View(), ids, inputs)
    ensures !ok ==>
              && asked <= endId - startId && FirstRefused(old(bus.script), asked)
              && bus.sent == Asked(old(bus.sent), Pinging(), startId, asked)
  {
    ghost var l0 := bus.View();
    ids, inputs, ok, asked := [], [], true, 0;
    var rawId: nat := startId;
    NoProgressYet(l0, startId);
    while rawId <= endId
      invariant startId <= rawId <= endId + 1 && asked == rawId - startId
      invariant Progress(l0, startId, asked, bus.View(), ids, inputs)
    {
      ids, ok, inputs := ProbeNext(bus, startId, rawId, ids, inputs, l0);
      if !ok {
        return;
      }
      rawId, asked := rawId + 1, asked + 1;
    }
    ok := true;
  }

  lemma NoProgressYet(l0: Line, startId: byte)
    ensures Progress(l0, startId, 0, l0, [], [])
  {
    assert l0.sent + [] == l0.sent;
  }

  /** The host's check of a scan result. */
  predicate HostAccepts(ids: seq<byte>, startId: byte, endId: byte) {
    forall id :: id in ids ==> startId <= id <= endId && IsUnicast(id)
  }

  // ---------------------------------------------------------------- the reply text

  function Digits(n: nat): string {
    if n < 10 then [('0' as int + n) as char] else Digits(n / 10) + [('0' as int + n % 10) as char]
  }

  function Joined(ids: seq<byte>): string {
    if ids == [] then ""
    else if |ids| == 1 then Digits(ids[0])
    else Joined(ids[..|ids| - 1]) + "," + Digits(ids[|ids| - 1])
  }

  function ScanReply(ids: seq<byte>, requestId: u32): string {
    "{\"jsonrpc\":\"2.0\",\"result\":" + "{\"ids\":[" + Joined(ids) + "]},\"id\":" + Digits(requestId) + "}"
  }

  /** `encode_success` gives up when the text does not fit the response buffer. */
  function Encoded(text: string): Option<nat> {
    if |text| <= JSON_RPC_BUFFER_SIZE then Some(|text|) else None
  }

  lemma ByteDigits(n: byte)
    ensures |Digits(n)| == if n < 10 then 1 else if n < 100 then 2 else 3
  {
    if n >= 10 {
      assert |Digits(n)| == |Digits(n / 10)| + 1;
      if n >= 100 {
        assert |Digits(n / 10)| == |Digits(n / 10 / 10)| + 1;
      }
    }
  }

  lemma {:induction false} DigitsBound(n: nat, k: nat)
    requires n < Power10(k) && k > 0
    ensures |Digits(n)| <= k
  {
    if n >= 10 {
      DigitsBound(n / 10, k - 1);
    }
  }

  function Power10(k: nat): nat {
    if k == 0 then 1 else 10 * Power10(k - 1)
  }

  /** Length of the list of all addresses from 1 to `n`, each with one separator. */
  function FullLength(n: nat): nat {
    if n < 10 then 2 * n else if n < 100 then 18 + 3 * (n - 9) else 288 + 4 * (n - 99)
  }

  lemma {:induction false} ListBound(ids: seq<byte>, high: byte)
    requires StrictlyIncreasing(ids) && forall id :: id in ids ==> 1 <= id <= high
    ensures ids != [] ==> |Joined(ids)| + 1 <= FullLength(high)
  {
    if ids != [] {
      var last := ids[|ids| - 1];
      assert last in ids;
      ByteDigits(last);
      if |ids| > 1 {
        var rest := ids[..|ids| - 1];
        assert forall id :: id in rest ==> id in ids;
        assert ids[0] in ids && ids[0] < last;
        ListBound(rest, last - 1);
      }
    }
  }

  /** The number a text of digits stands for. */
  function Value(text: string): int {
    if text == "" then 0 else 10 * Value(text[..|text| - 1]) + (text[|text| - 1] as int - '0' as int)
  }

  /** The digits written for a number read back as that number, without a leading zero. */
  lemma {:induction false} DigitsReadBack(n: nat)
    ensures Digits(n) != "" && Value(Digits(n)) == n && (n > 0 ==> Digits(n)[0] != '0')
  {
    if n >= 10 {
      DigitsReadBack(n / 10);
      var text := Digits(n);
      assert text[..|text| - 1] == Digits(n / 10);
    } else {
      assert Digits(n)[..0] == "";
    }
  }

  predicate NoComma(text: string) {
    forall i :: 0 <= i < |text| ==> text[i] != ','
  }

  lemma {:induction false} DigitsHaveNoComma(n: nat)
    ensures NoComma(Digits(n))
  {
    if n >= 10 {
      DigitsHaveNoComma(n / 10);
    }
  }

  /** The numbers of a list with commas between them, read from its end. */
  function ReadList(text: string, number: string): seq<int>
    decreases |text|
  {
    if text == "" then [Value(number)]
    else
      var last := text[|text| - 1];
      if last == ',' then ReadList(text[..|text| - 1], "") + [Value(number)]
      else ReadList(text[..|text| - 1], [last] + number)
  }

  lemma {:induction false} ReadNumber(before: string, digits: string, number: string)
    requires NoComma(digits)
    ensures ReadList(before + digits, number) == ReadList(before, digits + number)
    decreases |digits|
  {
    if digits == "" {
      assert before + digits == before && digits + number == number;
    } else {
      var text, rest, last := before + digits, digits[..|digits| - 1], digits[|digits| - 1];
      assert text != "" && text[|text| - 1] == last && text[..|text| - 1] == before + rest;
      ReadNumber(before, rest, [last] + number);
      assert rest + ([last] + number) == digits + number;
    }
  }

  lemma OneMoreNumber(list: string, digits: string)
    requires NoComma(digits)
    ensures ReadList(list + "," + digits, "") == ReadList(list, "") + [Value(digits)]
  {
    var before := list + ",";
    ReadNumber(before, digits, "");
    assert digits + "" == digits;
    assert before[|before| - 1] == ',' && before[..|before| - 1] == list;
  }

  lemma OnlyNumber(digits: string)
    requires NoComma(digits)
    ensures ReadList(digits, "") == [Value(digits)]
  {
    ReadNumber("", digits, "");
    assert "" + digits == digits && digits + "" == digits;
  }

  /** The list of a scan reply reads back as the addresses. */
  lemma {:induction false} ListReadsBack(ids: seq<byte>)
    requires ids != []
    ensures ReadList(Joined(ids), "") == ids
  {
    var last := ids[|ids| - 1];
    DigitsHaveNoComma(last);
    DigitsReadBack(last);
    if |ids| == 1 {
      OnlyNumber(Digits(last));
    } else {
      var rest := ids[..|ids| - 1];
      ListReadsBack(rest);
      OneMoreNumber(Joined(rest), Digits(last));
      assert ids == rest + [last];
    }
  }

  /** A scan reply, whatever range and request ID, has at most 956 bytes, so it always fits the
      response buffer and is never silently dropped. */
  lemma ScanReplyFits(ids: seq<byte>, startId: byte, endId: byte, requestId: u32)
    requires StrictlyIncreasing(ids) && HostAccepts(ids, startId, endId)
    ensures |ScanReply(ids, requestId)| <= 956 < 1024 == JSON_RPC_BUFFER_SIZE
    ensures Encoded(ScanReply(ids, requestId)) == Some(|ScanReply(ids, requestId)|)
  {
    ListBound(ids, 253);
    assert Power10(10) == 10_000_000_000;
    DigitsBound(requestId, 10);
  }

  function AddressesTo(n: nat): seq<byte>
    requires n <= 253
  {
    if n == 0 then [] else AddressesTo(n - 1) + [n]
  }

  lemma {:induction false} FullList(n: nat)
    requires n <= 253
    ensures |AddressesTo(n)| == n && (n > 0 ==> |Joined(AddressesTo(n))| + 1 == FullLength(n))
  {
    if n > 0 {
      FullList(n - 1);
      ByteDigits(n);
      var all := AddressesTo(n);
      assert all[..|all| - 1] == AddressesTo(n - 1) && all[|all| - 1] == n;
    }
  }

  /** All addresses and the longest request ID take exactly that many. */
  lemma ScanReplyBoundIsTight()
    ensures |ScanReply(AddressesTo(253), 0xffff_ffff)| == 956
  {
    FullList(253);
    TenDigits();
  }

  lemma TenDigits()
    ensures |Digits(4294967295)| == 10
  {
  }

  /** Every address is asked with the same six bytes but for the address and the checksum. */
  lemma PingInBytes(id: byte)
    ensures Pinging()(id) == [0xff, 0xff, id, 2, 1, 255 - (id + 3) % 256]
  {
    ChecksumOfFields(id, 2, PING, []);
    assert [id, 2, PING] + [] == [id, 2, PING];
    PacketInBytes(id, PING, [], 255 - (id + 3) % 256);
  }
}
