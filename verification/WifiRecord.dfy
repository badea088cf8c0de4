/** The Wi-Fi flash record: written by the provisioning tool, read by the firmware at start-up. */
module WifiRecord {
  import opened Bytes
  import Utf8

  const SSID_MAX_LEN := 32
  const PASSWORD_MAX_LEN := 63
  const IMAGE_SIZE := 4096
  const READ_SIZE := 108
  const Magic: seq<byte> := [0x46, 0x4c, 0x57, 0x43]   // "FLWC"
  const VERSION: byte := 1

  const WORD := 0x1_0000_0000
  const FNV_OFFSET: u32 := 0x811c_9dc5
  const FNV_PRIME := 0x0100_0193
  const FNV_PRIME_INVERSE := 0x359c_449b
  const CYCLES := 0x35_9c99   // their product is one more than this many times 2^32

  datatype Credentials = Credentials(ssid: seq<byte>, password: seq<byte>)

  // ---------------------------------------------------------------- checksum

  /** One FNV-1a step on a 32-bit word. */
  function FnvStep(hash: u32, b: byte): u32 {
    Xor(hash, b) * FNV_PRIME % WORD
  }

  function Fnv(hash: u32, bytes: seq<byte>): u32
    decreases |bytes|
  {
    if bytes == [] then hash else Fnv(FnvStep(hash, bytes[0]), bytes[1..])
  }

  function RecordChecksum(header: seq<byte>, payload: seq<byte>): u32 {
    Fnv(FNV_OFFSET, header + payload)
  }

  /** Exclusive or first, then the multiplication; header before payload; starting from the offset. */
  lemma FnvIsTheSecondVariant(hash: u32, b: byte, header: seq<byte>, payload: seq<byte>)
    ensures FnvStep(0, b) == b * 0x0100_0193 % 0x1_0000_0000
    ensures FnvStep(hash, 0) == hash * 0x0100_0193 % 0x1_0000_0000
    ensures RecordChecksum([], []) == 0x811c_9dc5
    ensures RecordChecksum(header, payload) == Fnv(Fnv(0x811c_9dc5, header), payload)
  {
    XorZero(hash);
    FnvConcat(FNV_OFFSET, header, payload);
  }

  lemma {:induction false} FnvConcat(hash: u32, a: seq<byte>, b: seq<byte>)
    ensures Fnv(hash, a + b) == Fnv(Fnv(hash, a), b)
    decreases |a|
  {
    if a == [] {
      assert a + b == b;
    } else {
      assert (a + b)[1..] == a[1..] + b;
      FnvConcat(FnvStep(hash, a[0]), a[1..], b);
    }
  }

  /** The prime is odd, so multiplying by it modulo 2^32 can be undone. */
  lemma PrimeIsInvertible(x: u32)
    ensures (x * FNV_PRIME % WORD) * FNV_PRIME_INVERSE % WORD == x
  {
    var product := x * FNV_PRIME;
    var q, r := product / WORD, product % WORD;
    assert r == product - q * WORD;
    assert FNV_PRIME * FNV_PRIME_INVERSE == 1 + CYCLES * WORD;
    assert r * FNV_PRIME_INVERSE == x + WORD * (x * CYCLES - q * FNV_PRIME_INVERSE);
    WholeWords(x, x * CYCLES - q * FNV_PRIME_INVERSE);
  }

  lemma WholeWords(x: u32, words: int)
    ensures (x + WORD * words) % WORD == x
  {
  }

  lemma XorFits(hash: u32, b: byte)
    ensures Xor(hash, b) < WORD
  {
    WordIsPow2();
    XorBound(hash, b, 32);
  }

  lemma WordIsPow2()
    ensures Pow2(32) == WORD
  {
    FourMoreBits(0);
    FourMoreBits(4);
    FourMoreBits(8);
    FourMoreBits(12);
    FourMoreBits(16);
    FourMoreBits(20);
    FourMoreBits(24);
    FourMoreBits(28);
  }

  lemma FourMoreBits(n: nat)
    ensures Pow2(n + 4) == 16 * Pow2(n)
  {
    assert Pow2(n + 2) == 4 * Pow2(n);
    assert Pow2(n + 4) == 4 * Pow2(n + 2);
  }

  lemma StepSeparates(h: u32, g: u32, b: byte, c: byte)
    requires FnvStep(h, b) == FnvStep(g, c)
    ensures b == c ==> h == g
    ensures h == g ==> b == c
  {
    XorFits(h, b);
    XorFits(g, c);
    PrimeIsInvertible(Xor(h, b));
    PrimeIsInvertible(Xor(g, c));
    if b == c {
      XorInjective(h, g, b);
    }
    if h == g {
      XorCommutes(h, b);
      XorCommutes(h, c);
      XorInjective(b, c, h);
    }
  }

  lemma {:induction false} FnvSeparatesSeeds(h: u32, g: u32, bytes: seq<byte>)
    requires h != g
    ensures Fnv(h, bytes) != Fnv(g, bytes)
    decreases |bytes|
  {
    if bytes != [] {
      if FnvStep(h, bytes[0]) == FnvStep(g, bytes[0]) {
        StepSeparates(h, g, bytes[0], bytes[0]);
      }
      FnvSeparatesSeeds(FnvStep(h, bytes[0]), FnvStep(g, bytes[0]), bytes[1..]);
    }
  }

  /** Changing one byte of the input always changes the hash. */
  lemma {:induction false} FnvDetectsOneByte(hash: u32, bytes: seq<byte>, k: nat, b: byte)
    requires k < |bytes| && b != bytes[k]
    ensures Fnv(hash, bytes[k := b]) != Fnv(hash, bytes)
    decreases |bytes|
  {
    if k == 0 {
      if FnvStep(hash, b) == FnvStep(hash, bytes[0]) {
        StepSeparates(hash, hash, b, bytes[0]);
      }
      assert bytes[0 := b][1..] == bytes[1..];
      FnvSeparatesSeeds(FnvStep(hash, b), FnvStep(hash, bytes[0]), bytes[1..]);
    } else {
      assert bytes[k := b][1..] == bytes[1..][k - 1 := b];
      FnvDetectsOneByte(FnvStep(hash, bytes[0]), bytes[1..], k - 1, b);
    }
  }

  // ---------------------------------------------------------------- the record

  /** The record layout does not depend on the hash, so it is stated for any hash of header and
      payload. */
  type Hash = (seq<byte>, seq<byte>) -> u32

  function Le32(w: u32): (r: seq<byte>)
    ensures |r| == 4
  {
    var w1 := w / 0x100;
    var w2 := w1 / 0x100;
    [w % 0x100, w1 % 0x100, w2 % 0x100, w2 / 0x100]
  }

  function FromLe32(s: seq<byte>): u32
    requires |s| == 4
  {
    (s[0] as int) + 0x100 * ((s[1] as int) + 0x100 * ((s[2] as int) + 0x100 * (s[3] as int)))
  }

  lemma Le32RoundTrip(w: u32)
    ensures FromLe32(Le32(w)) == w
  {
  }

  /** The first eight bytes; the last of them is reserved and stays erased. */
  function RecordHeader(ssid: seq<byte>, password: seq<byte>): (r: seq<byte>)
    requires |ssid| <= SSID_MAX_LEN && |password| <= PASSWORD_MAX_LEN
    ensures |r| == 8
  {
    Magic + [VERSION, |ssid|, |password|, 0xff]
  }

  function Erased(n: nat): seq<byte> {
    seq(n, _ => 0xff)
  }

  /** The whole flash sector. */
  function Sector(ssid: seq<byte>, password: seq<byte>, hash: Hash): (r: seq<byte>)
    requires |ssid| <= SSID_MAX_LEN && |password| <= PASSWORD_MAX_LEN
    ensures |r| == IMAGE_SIZE
  {
    var header := RecordHeader(ssid, password);
    header + Le32(hash(header, ssid + password)) + (ssid + password)
    + Erased(IMAGE_SIZE - 12 - |ssid| - |password|)
  }

  /** The sector byte by byte. */
  lemma SectorInBytes(ssid: seq<byte>, password: seq<byte>, hash: Hash)
    requires |ssid| <= 32 && |password| <= 63
    ensures var r := Sector(ssid, password, hash);
            var end := 12 + |ssid| + |password|;
            && |r| == 4096
            && r[..8] == [0x46, 0x4c, 0x57, 0x43, 1, |ssid|, |password|, 0xff]
            && (r[8] as int) + 256 * (r[9] as int) + 65536 * (r[10] as int) + 16777216 * (r[11] as int)
               == hash(r[..8], ssid + password)
            && r[12..12 + |ssid|] == ssid && r[12 + |ssid|..end] == password
            && forall i :: end <= i < 4096 ==> r[i] == 0xff
  {
    var header := RecordHeader(ssid, password);
    var sum := Le32(hash(header, ssid + password));
    var r := Sector(ssid, password, hash);
    assert r[..8] == header && r[8..12] == sum;
    assert r[8] == sum[0] && r[9] == sum[1] && r[10] == sum[2] && r[11] == sum[3];
    Le32RoundTrip(hash(header, ssid + password));
  }

  lemma SpliceMiddle(a: seq<byte>, b: seq<byte>, c: seq<byte>, source: seq<byte>)
    requires |source| == |b|
    ensures Splice(a + b + c, |a|, source) == a + source + c
  {
  }

  lemma Slices(a: seq<byte>, b: seq<byte>, c: seq<byte>, d: seq<byte>, end: nat)
    requires |a| + |b| + |c| <= end <= |a| + |b| + |c| + |d|
    ensures var all := (a + b + c + d)[..end];
            && all[..|a|] == a
            && all[|a|..|a| + |b|] == b
            && all[|a| + |b|..|a| + |b| + |c|] == c
  {
  }

  /** `config_image`: fill a flash sector in place. Text arguments are valid UTF-8 by type. */
  method ConfigImage(ssid: seq<byte>, password: seq<byte>) returns (r: Result<seq<byte>, ()>)
    requires Utf8.Valid(ssid) && Utf8.Valid(password)
    ensures r.Ok? <==> 1 <= |ssid| <= 32 && |password| <= 63
    ensures r.Ok? ==> r.value == Sector(ssid, password, RecordChecksum)
    ensures r.Ok? ==> LoadCredentials(r.value[..108]) == Some(Credentials(ssid, password))
  {
    if ssid == [] || |ssid| > SSID_MAX_LEN || |password| > PASSWORD_MAX_LEN {
      return Err(());
    }
    var image := FillSector(ssid, password, RecordChecksum);
    SectorLoadsBack(ssid, password, RecordChecksum);
    r := Ok(image);
  }

  method FillSector(ssid: seq<byte>, password: seq<byte>, hash: Hash) returns (r: seq<byte>)
    requires 1 <= |ssid| <= SSID_MAX_LEN && |password| <= PASSWORD_MAX_LEN
    ensures r == Sector(ssid, password, hash)
  {
    var image := new byte[IMAGE_SIZE](_ => 0xff);
    assert image[..] == Erased(IMAGE_SIZE);
    CopySlice(image, 0, Magic);
    image[4] := 1;
    image[5] := |ssid|;
    image[6] := |password|;
    ghost var header := RecordHeader(ssid, password);
    assert image[..] == header + Erased(IMAGE_SIZE - 8);
    r := FillPayload(image, header, ssid, password, hash);
  }

  lemma ErasedSplits(a: nat, b: nat)
    ensures Erased(a + b) == Erased(a) + Erased(b)
  {
  }

  lemma Regroup(a: seq<byte>, b: seq<byte>, c: seq<byte>, d: seq<byte>)
    ensures a + b + c + d == a + b + (c + d) == a + (b + c + d)
  {
  }

  method FillPayload(image: array<byte>, ghost header: seq<byte>, ssid: seq<byte>, password: seq<byte>, hash: Hash)
    returns (r: seq<byte>)
    requires |ssid| <= SSID_MAX_LEN && |password| <= PASSWORD_MAX_LEN
    requires |header| == 8 && image[..] == header + Erased(IMAGE_SIZE - 8)
    modifies image
    ensures r == header + Le32(hash(header, ssid + password)) + (ssid + password)
                 + Erased(IMAGE_SIZE - 12 - |ssid| - |password|)
  {
    ghost var gap, tail := Erased(4), Erased(IMAGE_SIZE - 12 - |ssid| - |password|);
    ghost var afterSsid := Erased(|password|) + tail;
    ErasedSplits(4, IMAGE_SIZE - 12);
    ErasedSplits(|ssid|, IMAGE_SIZE - 12 - |ssid|);
    ErasedSplits(|password|, IMAGE_SIZE - 12 - |ssid| - |password|);
    Regroup(header, gap, Erased(|ssid|), afterSsid);
    Regroup([], header, gap, Erased(|ssid|) + afterSsid);
    assert image[..] == header + gap + Erased(|ssid|) + afterSsid;
    SpliceMiddle(header + gap, Erased(|ssid|), afterSsid, ssid);
    CopySlice(image, 12, ssid);
    FillPassword(image, header, gap, ssid, password, tail);
    r := StampChecksum(image, header, gap, ssid + password, tail, hash);
  }

  method FillPassword(image: array<byte>, ghost header: seq<byte>, ghost gap: seq<byte>, ssid: seq<byte>,
                      password: seq<byte>, ghost tail: seq<byte>)
    requires |header| + |gap| == 12
    requires image[..] == header + gap + ssid + (Erased(|password|) + tail)
    modifies image
    ensures image[..] == header + gap + (ssid + password) + tail
  {
    Regroup(header + gap, ssid, Erased(|password|), tail);
    assert image[..] == (header + gap + ssid) + Erased(|password|) + tail;
    SpliceMiddle(header + gap + ssid, Erased(|password|), tail, password);
    CopySlice(image, 12 + |ssid|, password);
    assert header + gap + ssid + password == header + gap + (ssid + password);
  }

  method StampChecksum(image: array<byte>, ghost header: seq<byte>, ghost gap: seq<byte>, payload: seq<byte>,
                       ghost tail: seq<byte>, hash: Hash)
    returns (r: seq<byte>)
    requires |header| == 8 && |gap| == 4 && image[..] == header + gap + payload + tail
    modifies image
    ensures r == header + Le32(hash(header, payload)) + payload + tail
  {
    var payloadEnd := 12 + |payload|;
    Slices(header, gap, payload, tail, image.Length);
    assert image[..][..image.Length] == image[..];
    var checksum := hash(image[..8], image[12..payloadEnd]);
    assert image[..] == header + gap + (payload + tail);
    SpliceMiddle(header, gap, payload + tail, Le32(checksum));
    CopySlice(image, 8, Le32(checksum));
    r := image[..];
  }

  lemma SectorLoadsBack(ssid: seq<byte>, password: seq<byte>, hash: Hash)
    requires 1 <= |ssid| <= SSID_MAX_LEN && |password| <= PASSWORD_MAX_LEN
    requires Utf8.Valid(ssid) && Utf8.Valid(password)
    ensures Load(Sector(ssid, password, hash)[..READ_SIZE], hash) == Some(Credentials(ssid, password))
  {
    var header := RecordHeader(ssid, password);
    var checksum := hash(header, ssid + password);
    var bytes := Sector(ssid, password, hash)[..READ_SIZE];
    Slices(header, Le32(checksum), ssid + password, Erased(IMAGE_SIZE - 12 - |ssid| - |password|), READ_SIZE);
    assert bytes[..4] == bytes[..8][..4] == Magic;
    assert bytes[4] == header[4] && bytes[5] == header[5] && bytes[6] == header[6];
    Le32RoundTrip(checksum);
    LoadsBack(bytes, ssid, password, hash);
  }

  /** `load_wifi_credentials` after a successful flash read. */
  function LoadCredentials(bytes: seq<byte>): Option<Credentials>
    requires |bytes| == READ_SIZE
  {
    Load(bytes, RecordChecksum)
  }

  function Load(bytes: seq<byte>, hash: Hash): Option<Credentials>
    requires |bytes| == READ_SIZE
  {
    if bytes[..4] != Magic || bytes[4] != VERSION then None
    else
      var ssidLen, passwordLen := bytes[5], bytes[6];
      if ssidLen == 0 || ssidLen > SSID_MAX_LEN || passwordLen > PASSWORD_MAX_LEN then None
      else
        var payloadLen := ssidLen + passwordLen;
        if hash(bytes[..8], bytes[12..12 + payloadLen]) != FromLe32(bytes[8..12]) then None
        else
          var ssid, password := bytes[12..12 + ssidLen], bytes[12 + ssidLen..12 + payloadLen];
          AsText(ssid, password)
  }

  function AsText(ssid: seq<byte>, password: seq<byte>): Option<Credentials> {
    if Utf8.Valid(ssid) && Utf8.Valid(password) then Some(Credentials(ssid, password)) else None
  }

  lemma LoadsBack(bytes: seq<byte>, ssid: seq<byte>, password: seq<byte>, hash: Hash)
    requires |bytes| == READ_SIZE
    requires 1 <= |ssid| <= SSID_MAX_LEN && |password| <= PASSWORD_MAX_LEN
    requires bytes[..4] == Magic && bytes[4] == VERSION
    requires bytes[5] == |ssid| && bytes[6] == |password|
    requires bytes[12..12 + |ssid| + |password|] == ssid + password
    requires FromLe32(bytes[8..12]) == hash(bytes[..8], ssid + password)
    ensures Load(bytes, hash) == AsText(ssid, password)
  {
    SubSlices(bytes, 12, ssid, password);
  }

  lemma SubSlices(bytes: seq<byte>, at: nat, a: seq<byte>, b: seq<byte>)
    requires at + |a| + |b| <= |bytes| && bytes[at..at + |a| + |b|] == a + b
    ensures bytes[at..at + |a|] == a && bytes[at + |a|..at + |a| + |b|] == b
  {
    var both := bytes[at..at + |a| + |b|];
    assert bytes[at..at + |a|] == both[..|a|];
    assert bytes[at + |a|..at + |a| + |b|] == both[|a|..];
  }

  lemma LowByte(low: byte, high: nat)
    ensures (low + 0x100 * high) % 0x100 == low && (low + 0x100 * high) / 0x100 == high
  {
  }

  lemma Le32Undoes(s: seq<byte>)
    requires |s| == 4
    ensures Le32(FromLe32(s)) == s
  {
    LowByte(s[2], s[3]);
    LowByte(s[1], (s[2] as int) + 0x100 * (s[3] as int));
    LowByte(s[0], (s[1] as int) + 0x100 * ((s[2] as int) + 0x100 * (s[3] as int)));
  }

  /** Whatever the firmware accepts with an erased reserved byte is, up to the end of its payload,
      byte for byte the sector the provisioning tool writes for those credentials. */
  lemma LoadedRecordIsWritten(bytes: seq<byte>, hash: Hash)
    requires |bytes| == READ_SIZE && Load(bytes, hash).Some? && bytes[7] == 0xff
    ensures var c := Load(bytes, hash).value;
            && 1 <= |c.ssid| <= 32 && |c.password| <= 63 && Utf8.Valid(c.ssid) && Utf8.Valid(c.password)
            && bytes[..PayloadEnd(bytes)] == Sector(c.ssid, c.password, hash)[..PayloadEnd(bytes)]
  {
    var c, end := Load(bytes, hash).value, PayloadEnd(bytes);
    var header, payload := RecordHeader(c.ssid, c.password), c.ssid + c.password;
    assert bytes[..8] == bytes[..4] + [bytes[4], bytes[5], bytes[6], bytes[7]] == header;
    assert bytes[12..end] == payload;
    Le32Undoes(bytes[8..12]);
    assert bytes[..end] == header + bytes[8..12] + payload;
  }

  // ---------------------------------------------------------------- corruption

  function PayloadEnd(bytes: seq<byte>): nat
    requires |bytes| == READ_SIZE
  {
    12 + (bytes[5] as int) + (bytes[6] as int)
  }

  /** One changed byte in the magic, version, reserved byte, checksum or payload is always noticed;
      bytes behind the payload do not matter. */
  lemma OneByteChangeIsRejected(bytes: seq<byte>, k: nat, b: byte)
    requires |bytes| == READ_SIZE && LoadCredentials(bytes).Some?
    requires k < READ_SIZE && b != bytes[k] && k != 5 && k != 6
    ensures LoadCredentials(bytes[k := b]) ==
            if k < PayloadEnd(bytes) then None else LoadCredentials(bytes)
  {
    if k <= 4 {
      MarkChange(bytes, k, b, RecordChecksum);
    } else if k == 7 || 12 <= k < PayloadEnd(bytes) {
      ChecksumNotices(bytes, k, b, PayloadEnd(bytes));
      HashedChange(bytes, k, b, RecordChecksum);
    } else if 8 <= k < 12 {
      StoredChange(bytes, k, b, RecordChecksum);
    } else {
      PaddingChange(bytes, k, b, RecordChecksum);
    }
  }

  lemma MarkChange(bytes: seq<byte>, k: nat, b: byte, hash: Hash)
    requires |bytes| == READ_SIZE && Load(bytes, hash).Some? && k <= 4 && b != bytes[k]
    ensures Load(bytes[k := b], hash) == None
  {
    if k < 4 {
      assert bytes[k := b][..4][k] == b && bytes[..4][k] != b;
    }
  }

  lemma ChecksumNotices(bytes: seq<byte>, k: nat, b: byte, end: nat)
    requires |bytes| == READ_SIZE && 12 <= end <= READ_SIZE
    requires k < 8 || 12 <= k < end
    requires b != bytes[k]
    ensures RecordChecksum(bytes[k := b][..8], bytes[k := b][12..end]) != RecordChecksum(bytes[..8], bytes[12..end])
  {
    var changed, at := bytes[k := b], if k < 8 then k else k - 4;
    ChangeIsHashed(bytes, k, b, end, at);
    HashDiffers(bytes[..8], bytes[12..end], changed[..8], changed[12..end], at, b);
  }

  lemma ChangeIsHashed(bytes: seq<byte>, k: nat, b: byte, end: nat, at: nat)
    requires 12 <= end <= |bytes| && ((k < 8 && at == k) || (12 <= k < end && at == k - 4))
    ensures (bytes[..8] + bytes[12..end])[at] == bytes[k]
    ensures bytes[k := b][..8] + bytes[k := b][12..end] == (bytes[..8] + bytes[12..end])[at := b]
  {
  }

  lemma HashDiffers(header: seq<byte>, payload: seq<byte>, header': seq<byte>, payload': seq<byte>, at: nat, b: byte)
    requires at < |header + payload| && b != (header + payload)[at]
    requires header' + payload' == (header + payload)[at := b]
    ensures RecordChecksum(header', payload') != RecordChecksum(header, payload)
  {
    FnvDetectsOneByte(FNV_OFFSET, header + payload, at, b);
  }

  lemma HashedChange(bytes: seq<byte>, k: nat, b: byte, hash: Hash)
    requires |bytes| == READ_SIZE && Load(bytes, hash).Some?
    requires k == 7 || 12 <= k < PayloadEnd(bytes)
    requires hash(bytes[k := b][..8], bytes[k := b][12..PayloadEnd(bytes)]) !=
             hash(bytes[..8], bytes[12..PayloadEnd(bytes)])
    ensures Load(bytes[k := b], hash) == None
  {
    assert bytes[k := b][8..12] == bytes[8..12];
  }

  lemma StoredChange(bytes: seq<byte>, k: nat, b: byte, hash: Hash)
    requires |bytes| == READ_SIZE && Load(bytes, hash).Some?
    requires 8 <= k < 12 && b != bytes[k]
    ensures Load(bytes[k := b], hash) == None
  {
    var end := PayloadEnd(bytes);
    var changed := bytes[k := b];
    assert changed[..8] == bytes[..8] && changed[12..end] == bytes[12..end];
    assert changed[8..12] == bytes[8..12][k - 8 := b];
  }

  lemma PaddingChange(bytes: seq<byte>, k: nat, b: byte, hash: Hash)
    requires |bytes| == READ_SIZE && Load(bytes, hash).Some?
    requires PayloadEnd(bytes) <= k < READ_SIZE
    ensures Load(bytes[k := b], hash) == Load(bytes, hash)
  {
    var middle, end := 12 + (bytes[5] as int), PayloadEnd(bytes);
    var changed := bytes[k := b];
    assert changed[..4] == bytes[..4] && changed[..8] == bytes[..8];
    assert changed[8..12] == bytes[8..12] && changed[12..end] == bytes[12..end];
    assert changed[12..middle] == bytes[12..middle] && changed[middle..end] == bytes[middle..end];
  }
}
