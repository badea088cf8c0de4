/** Bytes, machine words and the small result types shared by every component. */
module Bytes {

  datatype Option<+T> = None | Some(value: T) {
    function GetOr(default: T): T {
      if Some? then value else default
    }
  }

  datatype Result<+T, +E> = Ok(value: T) | Err(error: E)

  type byte = b: int | 0 <= b < 0x100

  type u16 = w: int | 0 <= w < 0x1_0000

  type u32 = w: int | 0 <= w < 0x1_0000_0000

  /** Little-endian bytes of a 16-bit word. */
  function Le16(w: u16): (r: seq<byte>)
    ensures |r| == 2 && (r[0] as int) + 0x100 * (r[1] as int) == w
  {
    [w % 0x100, w / 0x100]
  }

  /** Bitwise exclusive or, one bit per unfolding. */
  function Xor(a: nat, b: nat): nat
    decreases a
  {
    if a == 0 then b
    else 2 * Xor(a / 2, b / 2) + (if a % 2 == b % 2 then 0 else 1)
  }

  function Pow2(bits: nat): nat {
    if bits == 0 then 1 else 2 * Pow2(bits - 1)
  }

  lemma {:induction false} XorBound(a: nat, b: nat, bits: nat)
    requires a < Pow2(bits) && b < Pow2(bits)
    ensures Xor(a, b) < Pow2(bits)
    decreases a
  {
    if a != 0 {
      XorBound(a / 2, b / 2, bits - 1);
    }
  }

  lemma {:induction false} XorZero(b: nat)
    ensures Xor(b, b) == 0 && Xor(b, 0) == b
  {
    if b != 0 {
      XorZero(b / 2);
    }
  }

  /** Exclusive or with the same word twice restores the original. */
  lemma {:induction false} XorUndoes(a: nat, b: nat)
    ensures Xor(Xor(a, b), b) == a
    decreases a
  {
    if a == 0 {
      XorZero(b);
    } else {
      XorUndoes(a / 2, b / 2);
      var x := Xor(a, b);
      assert x / 2 == Xor(a / 2, b / 2);
      if x == 0 {
        XorZeroMeansEqual(a, b);
      }
    }
  }

  lemma {:induction false} XorZeroMeansEqual(a: nat, b: nat)
    requires Xor(a, b) == 0
    ensures a == b
    decreases a
  {
    if a != 0 {
      XorZeroMeansEqual(a / 2, b / 2);
    }
  }

  /** With one operand fixed, exclusive or separates the other operand. */
  lemma XorInjective(a: nat, b: nat, c: nat)
    requires Xor(a, c) == Xor(b, c)
    ensures a == b
  {
    XorUndoes(a, c);
    XorUndoes(b, c);
  }

  lemma {:induction false} XorCommutes(a: nat, b: nat)
    ensures Xor(a, b) == Xor(b, a)
    decreases a
  {
    if a == 0 || b == 0 {
      XorZero(a);
      XorZero(b);
    } else {
      XorCommutes(a / 2, b / 2);
    }
  }

  /** Bit by bit, exclusive or is addition without carries. */
  lemma XorBits(a: nat, b: nat)
    ensures Xor(a, b) % 2 == (a + b) % 2 && Xor(a, b) / 2 == Xor(a / 2, b / 2)
  {
    Parity(a, b);
    if a == 0 {
      assert b == 2 * (b / 2) + b % 2;
    } else {
      Halves(Xor(a / 2, b / 2), if a % 2 == b % 2 then 0 else 1);
    }
  }

  lemma Halves(half: nat, bit: nat)
    requires bit < 2
    ensures (2 * half + bit) / 2 == half && (2 * half + bit) % 2 == bit
  {
  }

  lemma Parity(a: nat, b: nat)
    ensures (a + b) % 2 == if a % 2 == b % 2 then 0 else 1
  {
  }

  function XorByte(a: byte, b: byte): (r: byte) {
    assert Pow2(8) == 0x100;
    XorBound(a, b, 8);
    Xor(a, b)
  }

  // ---------------------------------------------------------------- copying into a buffer

  /** `s` with the bytes from `at` on replaced by `source`. */
  function Splice(s: seq<byte>, at: nat, source: seq<byte>): seq<byte>
    requires at + |source| <= |s|
  {
    s[..at] + source + s[at + |source|..]
  }

  lemma SpliceParts(s: seq<byte>, at: nat, source: seq<byte>)
    requires at + |source| <= |s|
    ensures |Splice(s, at, source)| == |s|
    ensures Splice(s, at, source)[..at + |source|] == s[..at] + source
    ensures Splice(s, at, source)[at + |source|..] == s[at + |source|..]
  {
  }

  method CopySlice(a: array<byte>, at: nat, source: seq<byte>)
    requires at + |source| <= a.Length
    modifies a
    ensures a[..] == Splice(old(a[..]), at, source)
  {
    forall k | 0 <= k < |source| {
      a[at + k] := source[k];
    }
  }
}
