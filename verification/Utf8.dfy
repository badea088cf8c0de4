/** Well-formed UTF-8, as the checked conversion from bytes to text accepts it. */
module Utf8 {
  import opened Bytes

  predicate IsContinuation(b: byte) {
    0x80 <= b <= 0xbf
  }

  /** The byte after a leading byte may not start an overlong form, a surrogate or a code point
      beyond U+10FFFF. */
  predicate IsSecond(lead: byte, b: byte) {
    if lead == 0xe0 then 0xa0 <= b <= 0xbf
    else if lead == 0xed then 0x80 <= b <= 0x9f
    else if lead == 0xf0 then 0x90 <= b <= 0xbf
    else if lead == 0xf4 then 0x80 <= b <= 0x8f
    else IsContinuation(b)
  }

  predicate Valid(s: seq<byte>) {
    if s == [] then true
    else if s[0] < 0x80 then Valid(s[1..])
    else if 0xc2 <= s[0] <= 0xdf then |s| >= 2 && IsSecond(s[0], s[1]) && Valid(s[2..])
    else if 0xe0 <= s[0] <= 0xef then
      |s| >= 3 && IsSecond(s[0], s[1]) && IsContinuation(s[2]) && Valid(s[3..])
    else if 0xf0 <= s[0] <= 0xf4 then
      |s| >= 4 && IsSecond(s[0], s[1]) && IsContinuation(s[2]) && IsContinuation(s[3]) && Valid(s[4..])
    else false
  }

  // ---------------------------------------------------------------- code points

  /** A code point that text may contain: no surrogate, and nothing beyond U+10FFFF. */
  type Scalar = c: int | 0 <= c < 0x11_0000 && !(0xd800 <= c < 0xe000)

  function Continuation(bits: nat): byte
    requires bits < 0x40
  {
    0x80 + bits
  }

  /** The encoding of section 3 of RFC 3629, six bits to a continuation byte. */
  function Encode(c: Scalar): (r: seq<byte>)
    ensures r != []
  {
    var low, rest := c % 0x40, c / 0x40;
    if c < 0x80 then [c]
    else if c < 0x800 then [0xc0 + rest, Continuation(low)]
    else
      var middle, high := rest % 0x40, rest / 0x40;
      if c < 0x1_0000 then [0xe0 + high, Continuation(middle), Continuation(low)]
      else [0xf0 + high / 0x40, Continuation(high % 0x40), Continuation(middle), Continuation(low)]
  }

  function EncodeAll(text: seq<Scalar>): seq<byte> {
    if text == [] then [] else Encode(text[0]) + EncodeAll(text[1..])
  }

  lemma EncodedOneIsValid(c: Scalar, rest: seq<byte>)
    requires Valid(rest)
    ensures Valid(Encode(c) + rest)
  {
    var s := Encode(c) + rest;
    var n := |Encode(c)|;
    assert s[n..] == rest;
  }

  lemma {:induction false} EncodedIsValid(text: seq<Scalar>)
    ensures Valid(EncodeAll(text))
  {
    if text != [] {
      EncodedIsValid(text[1..]);
      EncodedOneIsValid(text[0], EncodeAll(text[1..]));
    }
  }

  /** How many bytes the first character takes. */
  function Width(lead: byte): nat {
    if lead < 0x80 then 1 else if lead <= 0xdf then 2 else if lead <= 0xef then 3 else 4
  }

  lemma SixBits(high: nat, low: nat)
    requires low < 0x40
    ensures (high * 0x40 + low) / 0x40 == high && (high * 0x40 + low) % 0x40 == low
  {
  }

  lemma TwoBytes(a: byte, b: byte) returns (c: Scalar)
    requires 0xc2 <= a <= 0xdf && IsContinuation(b)
    ensures Encode(c) == [a, b]
  {
    SixBits(a - 0xc0, b - 0x80);
    c := (a - 0xc0) * 0x40 + (b - 0x80);
  }

  lemma ThreeBytes(a: byte, b: byte, d: byte) returns (c: Scalar)
    requires 0xe0 <= a <= 0xef && IsSecond(a, b) && IsContinuation(d)
    ensures Encode(c) == [a, b, d]
  {
    var high := (a - 0xe0) * 0x40 + (b - 0x80);
    SixBits(a - 0xe0, b - 0x80);
    SixBits(high, d - 0x80);
    c := high * 0x40 + (d - 0x80);
  }

  lemma FourBytes(a: byte, b: byte, d: byte, e: byte) returns (c: Scalar)
    requires 0xf0 <= a <= 0xf4 && IsSecond(a, b) && IsContinuation(d) && IsContinuation(e)
    ensures Encode(c) == [a, b, d, e]
  {
    var top := (a - 0xf0) * 0x40 + (b - 0x80);
    var high := top * 0x40 + (d - 0x80);
    SixBits(a - 0xf0, b - 0x80);
    SixBits(top, d - 0x80);
    SixBits(high, e - 0x80);
    c := high * 0x40 + (e - 0x80);
  }

  lemma FirstCharacter(s: seq<byte>) returns (c: Scalar)
    requires Valid(s) && s != []
    ensures Width(s[0]) <= |s| && Encode(c) == s[..Width(s[0])] && Valid(s[Width(s[0])..])
  {
    if s[0] < 0x80 {
      c := s[0];
      assert s[..1] == [s[0]];
    } else if s[0] <= 0xdf {
      c := TwoBytes(s[0], s[1]);
      assert s[..2] == [s[0], s[1]];
    } else if s[0] <= 0xef {
      c := ThreeBytes(s[0], s[1], s[2]);
      assert s[..3] == [s[0], s[1], s[2]];
    } else {
      c := FourBytes(s[0], s[1], s[2], s[3]);
      assert s[..4] == [s[0], s[1], s[2], s[3]];
    }
  }

  lemma {:induction false} ValidIsEncoded(s: seq<byte>) returns (text: seq<Scalar>)
    requires Valid(s)
    ensures EncodeAll(text) == s
  {
    if s == [] {
      text := [];
    } else {
      var c := FirstCharacter(s);
      var n := Width(s[0]);
      var rest := ValidIsEncoded(s[n..]);
      text := [c] + rest;
      assert text[1..] == rest && s == s[..n] + s[n..];
    }
  }

  /** The check accepts exactly the encodings of code point sequences. */
  lemma ValidExactlyWhenEncoded(s: seq<byte>)
    ensures Valid(s) <==> exists text :: EncodeAll(text) == s
  {
    if Valid(s) {
      var text := ValidIsEncoded(s);
    }
    if exists text :: EncodeAll(text) == s {
      var text :| EncodeAll(text) == s;
      EncodedIsValid(text);
    }
  }
}
