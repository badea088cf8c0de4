/** The serial scanner's incremental status parser, fed with chunks of any size. */
module StsScanner {
  import opened Bytes
  import opened Sts

  /** Offset of the first header, or -1. */
  function Find(b: seq<byte>): (r: int)
    ensures -1 <= r && (r >= 0 ==> r + 2 <= |b| && b[r] == 0xff && b[r + 1] == 0xff)
  {
    if |b| < 2 then -1
    else if b[0] == 0xff && b[1] == 0xff then 0
    else
      var r := Find(b[1..]);
      if r < 0 then -1 else r + 1
  }

  /** What is kept of a buffer without a header: a trailing 0xFF may start one. */
  function Tail(b: seq<byte>): seq<byte> {
    if b != [] && b[|b| - 1] == 0xff then [0xff] else []
  }

  predicate IsFrame(frame: seq<byte>, id: byte) {
    |frame| >= 6 && frame[2] == id && Checksum(frame[2..|frame| - 1]) == frame[|frame| - 1]
  }

  /** Status byte of the first complete valid frame, and what remains in the buffer. */
  function Extract(b: seq<byte>, id: byte): (r: (Option<byte>, seq<byte>))
    decreases |b|
  {
    var h := Find(b);
    if h < 0 then (None, Tail(b)) else Parse(b[h..], id)
  }

  /** One turn of the loop on a buffer that starts with a header. */
  function Parse(t: seq<byte>, id: byte): (r: (Option<byte>, seq<byte>))
    requires |t| >= 2
    decreases |t|, 0
  {
    if |t| < 4 then (None, t)
    else
      var length := t[3];
      if !(2 <= length <= 66) then Extract(t[1..], id)
      else if |t| < 4 + length then (None, t)
      else if IsFrame(t[..4 + length], id) then (Some(t[4]), t[4 + length..])
      else Extract(t[4 + length..], id)
  }

  // ---------------------------------------------------------------- chunking

  lemma {:induction false} FindKeeps(b: seq<byte>, c: seq<byte>)
    requires Find(b) >= 0
    ensures Find(b + c) == Find(b)
  {
    if !(b[0] == 0xff && b[1] == 0xff) {
      assert (b + c)[1..] == b[1..] + c;
      FindKeeps(b[1..], c);
    }
  }

  /** Where the first header lies when the bytes so far have none: it can only start in their tail. */
  lemma {:induction false} FindPastHeaderless(b: seq<byte>, c: seq<byte>)
    requires Find(b) < 0
    ensures var g := Find(Tail(b) + c);
            Find(b + c) == if g < 0 then -1 else |b| - |Tail(b)| + g
  {
    if |b| == 0 {
      assert b + c == c == Tail(b) + c;
    } else if |b| == 1 {
      if b[0] == 0xff {
        assert b == Tail(b);
      } else {
        assert (b + c)[1..] == c == Tail(b) + c;
      }
    } else {
      assert (b + c)[1..] == b[1..] + c;
      assert Tail(b) == Tail(b[1..]);
      FindPastHeaderless(b[1..], c);
    }
  }

  /** Appending bytes commutes with parsing what is already there: after a status the appended bytes
      stay in the buffer, otherwise parsing goes on from the residue. */
  lemma {:induction false} ExtractSplit(b: seq<byte>, c: seq<byte>, id: byte)
    ensures var (status, rest) := Extract(b, id);
            Extract(b + c, id) == if status.Some? then (status, rest + c) else Extract(rest + c, id)
    decreases |b|, 1
  {
    var h := Find(b);
    if h >= 0 {
      FindKeeps(b, c);
      assert (b + c)[h..] == b[h..] + c;
      FindHere(b, h);
      ParseSplit(b[h..], c, id);
    } else {
      HeaderlessSplit(b, c, id);
    }
  }

  lemma HeaderlessSplit(b: seq<byte>, c: seq<byte>, id: byte)
    requires Find(b) < 0
    ensures Extract(b + c, id) == Extract(Tail(b) + c, id)
  {
    FindPastHeaderless(b, c);
    var g := Find(Tail(b) + c);
    if g >= 0 {
      SameSuffix(b, c, g);
      SameFromHeader(b + c, Tail(b) + c, id);
    } else {
      assert Tail(b + c) == Tail(Tail(b) + c);
    }
  }

  lemma SameFromHeader(x: seq<byte>, y: seq<byte>, id: byte)
    requires Find(x) >= 0 && Find(y) >= 0 && x[Find(x)..] == y[Find(y)..]
    ensures Extract(x, id) == Extract(y, id)
  {
  }

  lemma SameSuffix(b: seq<byte>, c: seq<byte>, g: nat)
    requires g <= |Tail(b) + c|
    ensures (b + c)[|b| - |Tail(b)| + g..] == (Tail(b) + c)[g..]
  {
    var cut := |b| - |Tail(b)|;
    assert b[cut..] == Tail(b);
    assert (b + c)[cut..] == Tail(b) + c;
    assert (b + c)[cut + g..] == (b + c)[cut..][g..];
  }

  lemma FindHere(b: seq<byte>, h: nat)
    requires Find(b) == h
    ensures |b[h..]| >= 2 && Find(b[h..]) == 0
  {
  }

  lemma {:induction false} ParseSplit(t: seq<byte>, c: seq<byte>, id: byte)
    requires |t| >= 2 && Find(t) == 0
    ensures var (status, rest) := Parse(t, id);
            Parse(t + c, id) == if status.Some? then (status, rest + c) else Extract(rest + c, id)
    decreases |t|, 0
  {
    var u := t + c;
    FindKeeps(t, c);
    assert u[0..] == u;
    if |t| >= 4 {
      var length := t[3];
      assert u[3] == length;
      if !(2 <= length <= 66) {
        assert u[1..] == t[1..] + c;
        ExtractSplit(t[1..], c, id);
      } else if |t| >= 4 + length {
        assert u[..4 + length] == t[..4 + length];
        assert u[4 + length..] == t[4 + length..] + c;
        ExtractSplit(t[4 + length..], c, id);
      }
    }
  }

  /** A residue holds nothing more to find. */
  lemma ResidueIsStable(b: seq<byte>, id: byte)
    requires Extract(b, id).0.None?
    ensures Extract(Extract(b, id).1, id) == Extract(b, id)
  {
    ExtractSplit(b, [], id);
    assert b + [] == b && Extract(b, id).1 + [] == Extract(b, id).1;
  }

  // ---------------------------------------------------------------- soundness

  /** A status byte comes from one contiguous run of bytes: a header and a body that the firmware
      decoder accepts for this address, followed by exactly what is left in the buffer. */
  ghost predicate ComesFromFrame(b: seq<byte>, id: byte, error: byte, rest: seq<byte>) {
    exists i: nat, parameters ::
      |parameters| <= 64 && i <= |b| && b[i..] == Packet(id, error, parameters) + rest
  }

  lemma FrameIsPacket(t: seq<byte>, id: byte)
    requires |t| >= 4 && t[0] == t[1] == 0xff && 2 <= t[3] <= 66 && |t| == 4 + t[3]
    ensures IsFrame(t, id) <==> DecodeStatusPacket(t[2..], id).Ok?
    ensures IsFrame(t, id) ==> t == Packet(id, t[4], t[5..|t| - 1])
  {
    var body := t[2..];
    assert body[..|body| - 1] == t[2..|t| - 1];
    if IsFrame(t, id) {
      EncodeUndoesDecode(body, id);
      assert body[3..|body| - 1] == t[5..|t| - 1];
      assert t == Header + body;
    }
  }

  lemma {:induction false} ExtractIsSound(b: seq<byte>, id: byte)
    requires Extract(b, id).0.Some?
    ensures ComesFromFrame(b, id, Extract(b, id).0.value, Extract(b, id).1)
    decreases |b|, 1
  {
    var h := Find(b);
    ParseIsSound(b[h..], id);
    Shift(b, h, id, Extract(b, id).0.value, Extract(b, id).1);
  }

  lemma {:induction false} ParseIsSound(t: seq<byte>, id: byte)
    requires |t| >= 2 && t[0] == t[1] == 0xff && Parse(t, id).0.Some?
    ensures ComesFromFrame(t, id, Parse(t, id).0.value, Parse(t, id).1)
    decreases |t|, 0
  {
    var length := t[3];
    var (status, rest) := Parse(t, id);
    if !(2 <= length <= 66) {
      ExtractIsSound(t[1..], id);
      Shift(t, 1, id, status.value, rest);
    } else if IsFrame(t[..4 + length], id) {
      FrameIsPacket(t[..4 + length], id);
      assert t[0..] == t == t[..4 + length] + rest;
    } else {
      ExtractIsSound(t[4 + length..], id);
      Shift(t, 4 + length, id, status.value, rest);
    }
  }

  lemma Shift(b: seq<byte>, k: nat, id: byte, error: byte, rest: seq<byte>)
    requires k <= |b| && ComesFromFrame(b[k..], id, error, rest)
    ensures ComesFromFrame(b, id, error, rest)
  {
    var i: nat, parameters :| |parameters| <= 64 && i <= |b[k..]| &&
      b[k..][i..] == Packet(id, error, parameters) + rest;
    assert b[k + i..] == b[k..][i..];
  }

  // ---------------------------------------------------------------- completeness

  lemma {:induction false} FindAfterNoise(noise: seq<byte>, rest: seq<byte>)
    requires Find(noise) < 0 && (noise == [] || noise[|noise| - 1] != 0xff)
    ensures Find(noise + Header + rest) == |noise|
  {
    var b := noise + Header + rest;
    if noise != [] {
      assert b[1..] == noise[1..] + Header + rest;
      FindAfterNoise(noise[1..], rest);
    }
  }

  /** Behind any headerless noise that does not end in 0xFF, a well-formed reply of the expected
      servo is found, whatever its status byte, and nothing behind it is touched. */
  lemma CleanReplyIsFound(noise: seq<byte>, id: byte, error: byte, parameters: seq<byte>, rest: seq<byte>)
    requires Find(noise) < 0 && (noise == [] || noise[|noise| - 1] != 0xff) && |parameters| <= 64
    ensures Extract(noise + Packet(id, error, parameters) + rest, id) == (Some(error), rest)
  {
    var packet := Packet(id, error, parameters);
    var b := noise + packet + rest;
    assert b == noise + Header + (Body(id, error, parameters) + rest);
    FindAfterNoise(noise, Body(id, error, parameters) + rest);
    assert b[|noise|..] == packet + rest;
    ParseOfPacket(id, error, parameters, rest);
  }

  /** Noise that ends in 0xFF makes the header seem to start one byte early: the second 0xFF is taken
      for the address, and the servo's address for the length. */
  lemma ParseOneByteEarly(tail: seq<byte>, id: byte)
    requires |tail| >= 6 && tail[0] == tail[1] == 0xff && tail[2] == id
    ensures Parse([0xff] + tail, id) ==
            if !(2 <= id <= 66) then Parse(tail, id)
            else if |tail| < 3 + id then (None, [0xff] + tail)
            else Extract(tail[3 + id..], id)
  {
    var t := [0xff] + tail;
    assert t[2] == 0xff && t[3] == id && t[1..] == tail;
    if !(2 <= id <= 66) {
      assert Find(tail) == 0 && tail[0..] == tail;
    } else if |tail| >= 3 + id {
      assert t[4 + id..] == tail[3 + id..];
    }
  }

  lemma {:induction false} FindAtEndOfNoise(noise: seq<byte>, rest: seq<byte>)
    requires Find(noise) < 0 && noise != [] && noise[|noise| - 1] == 0xff
    ensures Find(noise + Header + rest) == |noise| - 1
  {
    var b := noise + Header + rest;
    if |noise| > 1 {
      assert b[1..] == noise[1..] + Header + rest;
      FindAtEndOfNoise(noise[1..], rest);
    }
  }

  lemma Associates(a: seq<byte>, b: seq<byte>, c: seq<byte>)
    ensures a + b + c == a + (b + c)
  {
  }

  /** What the parser makes of a reply behind headerless noise, in every case: it is found unless the
      noise ends in 0xFF and the servo's address looks like a length. Then the parser waits for that
      many bytes or skips them, and the reply with them. */
  lemma ReplyBehindNoise(noise: seq<byte>, id: byte, error: byte, parameters: seq<byte>, rest: seq<byte>)
    requires Find(noise) < 0 && |parameters| <= 64
    ensures var tail := Packet(id, error, parameters) + rest;
            Extract(noise + tail, id) ==
            if noise == [] || noise[|noise| - 1] != 0xff || !(2 <= id <= 66) then (Some(error), rest)
            else if |tail| < 3 + id then (None, [0xff] + tail)
            else Extract(tail[3 + id..], id)
  {
    var tail := Packet(id, error, parameters) + rest;
    if noise == [] || noise[|noise| - 1] != 0xff {
      CleanReplyIsFound(noise, id, error, parameters, rest);
      Associates(noise, Packet(id, error, parameters), rest);
    } else {
      Associates(Header, Body(id, error, parameters), rest);
      HeaderSeemsEarly(noise, tail, Body(id, error, parameters) + rest, id);
      assert tail[2] == id;
      ParseOneByteEarly(tail, id);
      ParseOfPacket(id, error, parameters, rest);
    }
  }

  lemma HeaderSeemsEarly(noise: seq<byte>, tail: seq<byte>, body: seq<byte>, id: byte)
    requires Find(noise) < 0 && noise != [] && noise[|noise| - 1] == 0xff && tail == Header + body
    ensures Extract(noise + tail, id) == Parse([0xff] + tail, id)
  {
    assert noise + tail == noise + Header + body;
    FindAtEndOfNoise(noise, body);
    assert (noise + tail)[|noise| - 1..] == [0xff] + tail;
  }

  /** For a reply too short to hide another packet, such as the answer to a ping, that is exact: a
      status is found if and only if the noise does not end in 0xFF or the address is no length. */
  lemma ShortReplyFoundExactlyWhen(noise: seq<byte>, id: byte, error: byte, parameters: seq<byte>)
    requires Find(noise) < 0 && |parameters| <= 4
    ensures var found := Extract(noise + Packet(id, error, parameters), id);
            && (found.0.Some? <==> noise == [] || noise[|noise| - 1] != 0xff || !(2 <= id <= 66))
            && (found.0.Some? ==> found == (Some(error), []))
  {
    var packet := Packet(id, error, parameters);
    ReplyBehindNoise(noise, id, error, parameters, []);
    assert packet + [] == packet;
    if 2 <= id <= 66 && |packet| >= 3 + id {
      ShortBufferHoldsNothing(packet[3 + id..], id);
    }
  }

  lemma ShortBufferHoldsNothing(b: seq<byte>, id: byte)
    requires |b| < 6
    ensures Extract(b, id).0.None?
  {
    if Extract(b, id).0.Some? {
      ExtractIsSound(b, id);
    }
  }

  lemma ParseOfPacket(id: byte, error: byte, parameters: seq<byte>, rest: seq<byte>)
    requires |parameters| <= 64
    ensures Parse(Packet(id, error, parameters) + rest, id) == (Some(error), rest)
  {
    var packet := Packet(id, error, parameters);
    var t := packet + rest;
    assert t[..|packet|] == packet && t[|packet|..] == rest;
    assert packet[3] == |parameters| + 2 && packet[4] == error;
    assert packet[2..] == Body(id, error, parameters);
    DecodeUndoesEncode(id, error, parameters, id);
    FrameIsPacket(packet, id);
  }

  // ---------------------------------------------------------------- the parser

  function Concat(chunks: seq<seq<byte>>): seq<byte> {
    if chunks == [] then [] else chunks[0] + Concat(chunks[1..])
  }

  lemma {:induction false} ConcatSnoc(chunks: seq<seq<byte>>, chunk: seq<byte>)
    ensures Concat(chunks + [chunk]) == Concat(chunks) + chunk
  {
    if chunks == [] {
      assert [chunk][1..] == [];
    } else {
      assert (chunks + [chunk])[1..] == chunks[1..] + [chunk];
      ConcatSnoc(chunks[1..], chunk);
    }
  }

  method CheckFrame(frame: seq<byte>, expectedId: byte) returns (intact: bool)
    requires |frame| >= 6
    ensures intact <==> IsFrame(frame, expectedId)
  {
    var checksum := ComputeChecksum(frame[2..|frame| - 1]);
    intact := frame[2] == expectedId && checksum == frame[|frame| - 1];
  }

  /** The bytes received so far and not yet parsed. */
  class ReplyBuffer {
    var bytes: seq<byte>

    constructor ()
      ensures bytes == []
    {
      bytes := [];
    }

    method ExtractStatus(expectedId: byte) returns (status: Option<byte>)
      modifies this
      ensures (status, bytes) == Extract(old(bytes), expectedId)
    {
      while true
        invariant Extract(bytes, expectedId) == Extract(old(bytes), expectedId)
        decreases |bytes|
      {
        var offset := Find(bytes);
        if offset < 0 {
          bytes := Tail(bytes);
          return None;
        }
        FindHere(bytes, offset);
        bytes := bytes[offset..];
        assert bytes[0..] == bytes;
        if |bytes| < 4 {
          return None;
        }
        var length := bytes[3];
        if !(2 <= length <= 66) {
          bytes := bytes[1..];
          continue;
        }
        var frameLength := 4 + length;
        if |bytes| < frameLength {
          return None;
        }
        var frame := bytes[..frameLength];
        bytes := bytes[frameLength..];
        var intact := CheckFrame(frame, expectedId);
        if !intact {
          continue;
        }
        return Some(frame[4]);
      }
    }
  }

  /** Reading chunk by chunk gives the status and the leftover bytes that parsing the whole stream
      at once would give, however the stream was cut; an empty answer means every chunk was read. */
  method ReadStatus(chunks: seq<seq<byte>>, expectedId: byte)
    returns (status: Option<byte>, residue: seq<byte>, taken: nat)
    ensures taken <= |chunks| && (status.None? ==> taken == |chunks|)
    ensures (status, if status.Some? then residue + Concat(chunks[taken..]) else residue) ==
            Extract(Concat(chunks), expectedId)
    ensures status.Some? ==>
              ComesFromFrame(Concat(chunks), expectedId, status.value, residue + Concat(chunks[taken..]))
  {
    var buffer := new ReplyBuffer();
    taken := 0;
    while taken < |chunks|
      invariant 0 <= taken <= |chunks|
      invariant Extract(Concat(chunks[..taken]), expectedId) == (None, buffer.bytes)
    {
      var chunk := chunks[taken];
      ghost var before := Concat(chunks[..taken]);
      assert chunks[..taken + 1] == chunks[..taken] + [chunk];
      ConcatSnoc(chunks[..taken], chunk);
      ExtractSplit(before, chunk, expectedId);
      taken := taken + 1;
      if chunk == [] {
        assert before + chunk == before;
        continue;
      }
      buffer.bytes := buffer.bytes + chunk;
      var found := buffer.ExtractStatus(expectedId);
      if found.Some? {
        ConcatSplit(chunks, taken);
        ExtractSplit(Concat(chunks[..taken]), Concat(chunks[taken..]), expectedId);
        ExtractIsSound(Concat(chunks), expectedId);
        return found, buffer.bytes, taken;
      }
    }
    assert chunks[..taken] == chunks;
    return None, buffer.bytes, taken;
  }

  lemma {:induction false} ConcatSplit(chunks: seq<seq<byte>>, k: nat)
    requires k <= |chunks|
    ensures Concat(chunks) == Concat(chunks[..k]) + Concat(chunks[k..])
  {
    if k == 0 {
      assert chunks[..0] == [] && chunks[0..] == chunks;
    } else {
      assert chunks[..k][1..] == chunks[1..][..k - 1] && chunks[k..] == chunks[1..][k - 1..];
      ConcatSplit(chunks[1..], k - 1);
    }
  }
}
