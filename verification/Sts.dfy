/** STS packets: checksum, instruction encoder and status decoder. */
module Sts {
  import opened Bytes

  const Header: seq<byte> := [0xff, 0xff]

  datatype InstructionPacketError = OutputTooSmall | ParametersTooLong

  datatype StatusPacketError = InvalidLength | UnexpectedId | InvalidChecksum

  datatype StatusPacket = StatusPacket(error: byte, parameters: seq<byte>)

  /** Plain sum of the bytes, without any word size. */
  function Total(bytes: seq<byte>): nat {
    if bytes == [] then 0 else bytes[0] + Total(bytes[1..])
  }

  /** Start from 0xFF and take every byte off again, wrapping at zero. */
  function Checksum(bytes: seq<byte>): byte {
    if bytes == [] then 0xff
    else
      var rest := Checksum(bytes[1..]);
      if rest < bytes[0] then rest + 0x100 - bytes[0] else rest - bytes[0]
  }

  /** That is the complement of the low eight bits of the sum. */
  lemma {:induction false} ChecksumComplementsTotal(bytes: seq<byte>)
    ensures Checksum(bytes) == 0xff - Total(bytes) % 0x100
  {
    if bytes != [] {
      ChecksumComplementsTotal(bytes[1..]);
      WrapEarly(Total(bytes[1..]), bytes[0]);
    }
  }

  lemma {:induction false} TotalConcat(a: seq<byte>, b: seq<byte>)
    ensures Total(a + b) == Total(a) + Total(b)
  {
    if a == [] {
      assert a + b == b;
    } else {
      assert (a + b)[1..] == a[1..] + b;
      TotalConcat(a[1..], b);
    }
  }

  lemma TotalSnoc(bytes: seq<byte>, k: nat)
    requires k < |bytes|
    ensures Total(bytes[..k + 1]) == Total(bytes[..k]) + bytes[k]
  {
    assert bytes[..k + 1] == bytes[..k] + [bytes[k]];
    TotalConcat(bytes[..k], [bytes[k]]);
  }

  /** Dropping carries early does not change the low eight bits. */
  lemma WrapEarly(a: nat, b: nat)
    ensures (a % 0x100 + b) % 0x100 == (a + b) % 0x100
  {
    var q := a / 0x100;
    assert a + b == (a % 0x100 + b) + q * 0x100;
  }

  /** The running 8-bit sum of the encoder and the decoder is the complemented total. */
  method ComputeChecksum(bytes: seq<byte>) returns (c: byte)
    ensures c == Checksum(bytes)
  {
    var sum: byte := 0;
    var index := 0;
    while index < |bytes|
      invariant 0 <= index <= |bytes|
      invariant sum == Total(bytes[..index]) % 0x100
    {
      TotalSnoc(bytes, index);
      WrapEarly(Total(bytes[..index]), bytes[index]);
      sum := (sum + bytes[index]) % 0x100;
      index := index + 1;
    }
    assert bytes[..index] == bytes;
    ChecksumComplementsTotal(bytes);
    c := 0xff - sum;
  }

  // ---------------------------------------------------------------- encoding

  /** Packet body after the header: address, length, instruction or error, parameters, checksum. */
  function Body(id: byte, kind: byte, parameters: seq<byte>): (r: seq<byte>)
    requires |parameters| <= 0xfd
    ensures |r| == |parameters| + 4
  {
    var covered := [id, |parameters| + 2, kind] + parameters;
    covered + [Checksum(covered)]
  }

  function Packet(id: byte, kind: byte, parameters: seq<byte>): seq<byte>
    requires |parameters| <= 0xfd
  {
    Header + Body(id, kind, parameters)
  }

  /** A packet byte by byte, with the checksum of all but the header at its end. */
  lemma PacketInBytes(id: byte, kind: byte, parameters: seq<byte>, last: byte)
    requires |parameters| <= 0xfd && Checksum([id, |parameters| + 2, kind] + parameters) == last
    ensures Packet(id, kind, parameters) == [0xff, 0xff, id, |parameters| + 2, kind] + parameters + [last]
  {
    Assembled(id, |parameters| + 2, kind, parameters, last);
  }

  /** That checksum, from the three fields and the sum of the parameters. */
  lemma ChecksumOfFields(a: byte, b: byte, c: byte, parameters: seq<byte>)
    ensures Checksum([a, b, c] + parameters) == 255 - (a + b + c + Total(parameters)) % 256
  {
    TotalOfThree(a, b, c, parameters);
    ChecksumComplementsTotal([a, b, c] + parameters);
  }

  lemma TotalOfThree(a: byte, b: byte, c: byte, rest: seq<byte>)
    ensures Total([a, b, c] + rest) == a + b + c + Total(rest)
  {
    TotalCons(c, rest);
    TotalCons(b, [c] + rest);
    TotalCons(a, [b] + ([c] + rest));
    assert [a, b, c] + rest == [a] + ([b] + ([c] + rest));
  }

  lemma TotalCons(a: byte, rest: seq<byte>)
    ensures Total([a] + rest) == a + Total(rest)
  {
    assert ([a] + rest)[1..] == rest;
  }

  lemma Assembled(a: byte, b: byte, c: byte, parameters: seq<byte>, last: byte)
    ensures Header + (([a, b, c] + parameters) + [last]) == [0xff, 0xff, a, b, c] + parameters + [last]
  {
  }

  method EncodeInstructionPacket(output: array<byte>, id: byte, instruction: byte, parameters: seq<byte>)
    returns (r: Result<nat, InstructionPacketError>)
    modifies output
    ensures |parameters| > 0xfd ==> r == Err(ParametersTooLong)
    ensures |parameters| <= 0xfd && output.Length < |parameters| + 6 ==> r == Err(OutputTooSmall)
    ensures |parameters| <= 0xfd && output.Length >= |parameters| + 6 ==>
              r == Ok(|parameters| + 6) && output[..] ==
              Packet(id, instruction, parameters) + old(output[..])[|parameters| + 6..]
    ensures r.Err? ==> output[..] == old(output[..])
  {
    if |parameters| + 2 > 0xff {
      return Err(ParametersTooLong);
    }
    var length: byte := |parameters| + 2;
    var packetLen := length + 4;
    if output.Length < packetLen {
      return Err(OutputTooSmall);
    }
    WriteFields(output, [id, length, instruction], parameters);
    ghost var filled, covered := output[..], [id, length, instruction] + parameters;
    SpliceParts(old(output[..]), 0, Header + covered);
    assert old(output[..])[..0] + (Header + covered) == Header + covered;
    assert output[2..packetLen - 1] == filled[..packetLen - 1][2..] == covered;
    var checksum := ComputeChecksum(output[2..packetLen - 1]);
    StampByte(output, packetLen - 1, checksum);
    assert (Header + covered) + [checksum] == Packet(id, instruction, parameters);
    assert filled[packetLen - 1..][1..] == old(output[..])[packetLen..];
    r := Ok(packetLen);
  }

  method StampByte(output: array<byte>, at: nat, b: byte)
    requires at < output.Length
    modifies output
    ensures output[..] == (old(output[..])[..at] + [b]) + old(output[..])[at..][1..]
  {
    output[at] := b;
  }

  /** Header, fixed fields and parameters, everything in front of the checksum. */
  method WriteFields(output: array<byte>, fields: seq<byte>, parameters: seq<byte>)
    requires |fields| == 3 && 5 + |parameters| <= output.Length
    modifies output
    ensures output[..] == Splice(old(output[..]), 0, Header + (fields + parameters))
  {
    output[0], output[1] := Header[0], Header[1];
    output[2] := fields[0];
    output[3] := fields[1];
    output[4] := fields[2];
    ghost var fixed := output[..];
    assert fixed[..5] == Header + fields;
    CopySlice(output, 5, parameters);
    assert fixed[5 + |parameters|..] == old(output[..])[5 + |parameters|..];
    assert Header + fields + parameters == Header + (fields + parameters);
  }

  // ---------------------------------------------------------------- decoding

  function DecodeStatusPacket(packet: seq<byte>, expectedId: byte): Result<StatusPacket, StatusPacketError> {
    if |packet| < 4 then Err(InvalidLength)
    else
      var length := packet[1];
      if !(2 <= length <= 66) || |packet| != length + 2 then Err(InvalidLength)
      else if packet[0] != expectedId then Err(UnexpectedId)
      else if Checksum(packet[..|packet| - 1]) != packet[|packet| - 1] then Err(InvalidChecksum)
      else Ok(StatusPacket(packet[2], packet[3..|packet| - 1]))
  }

  /** A body with at most 64 parameters decodes to the fields it was built from, whoever expects
      it: another address is refused. */
  lemma DecodeUndoesEncode(id: byte, kind: byte, parameters: seq<byte>, expectedId: byte)
    requires |parameters| <= 64
    ensures DecodeStatusPacket(Body(id, kind, parameters), expectedId) ==
            if id == expectedId then Ok(StatusPacket(kind, parameters)) else Err(UnexpectedId)
  {
    var body := Body(id, kind, parameters);
    assert body[..|body| - 1] == [id, |parameters| + 2, kind] + parameters;
    assert body[3..|body| - 1] == parameters;
  }

  /** Every accepted body is the encoding of what it decodes to. */
  lemma EncodeUndoesDecode(packet: seq<byte>, id: byte)
    requires DecodeStatusPacket(packet, id).Ok?
    ensures var status := DecodeStatusPacket(packet, id).value;
            |status.parameters| <= 64 && packet == Body(id, status.error, status.parameters)
  {
    var status := DecodeStatusPacket(packet, id).value;
    assert packet[..|packet| - 1] == [id, |status.parameters| + 2, status.error] + status.parameters;
    assert packet == packet[..|packet| - 1] + [packet[|packet| - 1]];
  }

  lemma TotalUpdate(bytes: seq<byte>, k: nat, b: byte)
    requires k < |bytes|
    ensures Total(bytes[k := b]) == Total(bytes) - bytes[k] + b
  {
    var pre, post := bytes[..k], bytes[k + 1..];
    assert bytes == pre + ([bytes[k]] + post) && bytes[k := b] == pre + ([b] + post);
    TotalConcat(pre, [bytes[k]] + post);
    TotalConcat(pre, [b] + post);
  }

  /** Changing exactly one byte of an accepted body, whichever it is, makes the decoder refuse it,
      and the position decides the reason. */
  lemma SingleByteChangeIsRefused(packet: seq<byte>, id: byte, k: nat, b: byte)
    requires DecodeStatusPacket(packet, id).Ok?
    requires k < |packet| && b != packet[k]
    ensures DecodeStatusPacket(packet[k := b], id) ==
            Err(if k == 0 then UnexpectedId else if k == 1 then InvalidLength else InvalidChecksum)
  {
    var last := |packet| - 1;
    if 2 <= k < last {
      ChecksumNotices(packet[..last], k, b);
      CoveredByteFails(packet, id, k, b);
    } else if k == last {
      assert packet[k := b][..last] == packet[..last];
    }
  }

  lemma LowBitsDiffer(total: nat, a: byte, b: byte)
    requires a != b && a <= total
    ensures (total - a + b) % 0x100 != total % 0x100
  {
  }

  /** Changing one covered byte always changes the checksum. */
  lemma ChecksumNotices(covered: seq<byte>, k: nat, b: byte)
    requires k < |covered| && b != covered[k]
    ensures Checksum(covered[k := b]) != Checksum(covered)
  {
    TotalUpdate(covered, k, b);
    TotalUpdate(covered, k, 0);
    LowBitsDiffer(Total(covered), covered[k], b);
    ChecksumComplementsTotal(covered);
    ChecksumComplementsTotal(covered[k := b]);
  }

  lemma CoveredByteFails(packet: seq<byte>, id: byte, k: nat, b: byte)
    requires DecodeStatusPacket(packet, id).Ok? && 2 <= k < |packet| - 1
    requires Checksum(packet[..|packet| - 1][k := b]) != Checksum(packet[..|packet| - 1])
    ensures DecodeStatusPacket(packet[k := b], id) == Err(InvalidChecksum)
  {
    assert packet[k := b][..|packet| - 1] == packet[..|packet| - 1][k := b];
  }
}
