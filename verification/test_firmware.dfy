/**
 * `create_test_firmware` (create_test_firmware.py): the bytes of a test
 * firmware image. A 16-byte header, `struct.pack('<4sIII', b'FWUP', 0x00020000,
 * size_bytes, 0x12345678)`, then the pattern 0, 1, ..., 255 written chunk by
 * chunk until the image is `size_bytes` long.
 */
module TestFirmware {
  import opened Http
  import UpdateCheck

  const MAGIC: seq<byte> := [0x46, 0x57, 0x55, 0x50]  // "FWUP"
  const HEADER_VERSION: nat := 0x0002_0000
  const CRC_PLACEHOLDER: nat := 0x1234_5678
  const HEADER_LENGTH: nat := 16

  /** Values the `I` format can pack are below this. */
  const U32_LIMIT: nat := 0x1_0000_0000

  /** A `<I` field: four bytes, least significant first. */
  function LeU32(x: nat): (b: seq<byte>)
    requires x < U32_LIMIT
    ensures |b| == 4
  {
    var q1 := x / 256;
    var q2 := q1 / 256;
    var q3 := q2 / 256;
    [(x % 256) as byte, (q1 % 256) as byte, (q2 % 256) as byte, q3 as byte]
  }

  /** Reading a `<I` field back. */
  function DecodeLeU32(b: seq<byte>): nat
    requires |b| == 4
  {
    b[0] as nat + 256 * (b[1] as nat + 256 * (b[2] as nat + 256 * b[3] as nat))
  }

  lemma LeU32RoundTrip(x: nat)
    requires x < U32_LIMIT
    ensures DecodeLeU32(LeU32(x)) == x
  {
    var q1 := x / 256;
    var q2 := q1 / 256;
    var q3 := q2 / 256;
    assert x == x % 256 + 256 * q1;
    assert q1 == q1 % 256 + 256 * q2;
    assert q2 == q2 % 256 + 256 * q3;
    assert q3 < 256;
  }

  /** `struct.pack('<4sIII', b'FWUP', 0x00020000, size_bytes, 0x12345678)`. */
  function PackHeader(sizeBytes: nat): (h: seq<byte>)
    requires sizeBytes < U32_LIMIT
    ensures |h| == HEADER_LENGTH
  {
    MAGIC + LeU32(HEADER_VERSION) + LeU32(sizeBytes) + LeU32(CRC_PLACEHOLDER)
  }

  /** The first `n` bytes of the repeating pattern 0, 1, ..., 255, 0, 1, ... */
  function Pattern(n: nat): (p: seq<byte>)
    ensures |p| == n
  {
    seq(n, i => (i % 256) as byte)
  }

  /** How many pattern bytes follow the header. */
  function PayloadLength(sizeBytes: int): nat
  {
    if sizeBytes > HEADER_LENGTH then sizeBytes - HEADER_LENGTH else 0
  }

  /** The image the script writes for a payload size it can pack. */
  function TestImage(sizeBytes: nat): seq<byte>
    requires sizeBytes < U32_LIMIT
  {
    PackHeader(sizeBytes) + Pattern(PayloadLength(sizeBytes))
  }

  /** A chunk starting on a multiple of 256 restarts the pattern at 0, so
      appending a prefix of `bytearray(range(256))` continues the pattern. */
  lemma PatternExtends(n: nat, c: nat)
    requires n % 256 == 0 && c <= 256
    ensures Pattern(n) + Pattern(256)[..c] == Pattern(n + c)
  {
    var k := n / 256;
    assert n == 256 * k;
    var whole, chunk := Pattern(n + c), Pattern(256)[..c];
    forall i | n <= i < n + c
      ensures whole[i] == chunk[i - n]
    {
      assert i == 256 * k + (i - n);
    }
    assert forall i :: 0 <= i < n + c ==> (Pattern(n) + chunk)[i] == whole[i];
  }

  /** `create_test_firmware(filename, size_kb)`, the bytes it writes. The file
      is opened for writing before the header is packed, so a `size_bytes`
      the `I` format cannot hold leaves an empty file (`ok` false: the
      script raises `struct.error`). */
  method CreateTestFirmware(sizeKb: int) returns (ok: bool, image: seq<byte>)
    ensures ok <==> 0 <= sizeKb * 1024 < U32_LIMIT
    ensures ok ==> image == TestImage(sizeKb * 1024)
    ensures !ok ==> image == []
  {
    var sizeBytes := sizeKb * 1024;
    if sizeBytes < 0 || sizeBytes >= U32_LIMIT {
      return false, [];
    }
    var header := PackHeader(sizeBytes);
    image := header;
    var pattern := Pattern(256);
    var remaining := sizeBytes - |header|;
    var payload := PayloadLength(sizeBytes);
    while remaining > 0
      invariant remaining <= payload
      invariant remaining < 0 ==> payload == 0
      invariant image == header + Pattern(payload - (if remaining > 0 then remaining else 0))
      invariant remaining > 0 ==> (payload - remaining) % 256 == 0
      decreases remaining
    {
      var chunkSize := if |pattern| <= remaining then |pattern| else remaining;
      PatternExtends(payload - remaining, chunkSize);
      image := image + pattern[..chunkSize];
      remaining := remaining - chunkSize;
    }
    ok := true;
  }

  // ---------------------------------------------------------------------------
  // The layout of the image
  // ---------------------------------------------------------------------------

  /** The header: magic, then version, size and CRC placeholder read back as
      little-endian 32-bit fields. */
  lemma {:induction false} HeaderLayout(sizeBytes: nat)
    requires sizeBytes < U32_LIMIT
    ensures var image := TestImage(sizeBytes);
      && image[..4] == [0x46, 0x57, 0x55, 0x50]
      && DecodeLeU32(image[4..8]) == 0x0002_0000
      && DecodeLeU32(image[8..12]) == sizeBytes
      && DecodeLeU32(image[12..16]) == 0x1234_5678
  {
    var image := TestImage(sizeBytes);
    assert image[4..8] == LeU32(HEADER_VERSION);
    assert image[8..12] == LeU32(sizeBytes);
    assert image[12..16] == LeU32(CRC_PLACEHOLDER);
    LeU32RoundTrip(HEADER_VERSION);
    LeU32RoundTrip(sizeBytes);
    LeU32RoundTrip(CRC_PLACEHOLDER);
  }

  /** Payload byte `i` is `i mod 256`: every chunk restarts the pattern. */
  lemma PayloadIsPattern(sizeBytes: nat, i: nat)
    requires sizeBytes < U32_LIMIT && HEADER_LENGTH + i < |TestImage(sizeBytes)|
    ensures TestImage(sizeBytes)[HEADER_LENGTH + i] == (i % 256) as byte
  {
  }

  /** The image is the header plus `max(0, size_bytes - 16)` bytes; from one
      kilobyte on that is `size_bytes`, the size the header records. */
  lemma {:induction false} ImageLength(sizeKb: nat)
    requires sizeKb * 1024 < U32_LIMIT
    ensures |TestImage(sizeKb * 1024)| == HEADER_LENGTH + PayloadLength(sizeKb * 1024)
    ensures sizeKb >= 1 ==>
      && |TestImage(sizeKb * 1024)| == sizeKb * 1024
      && DecodeLeU32(TestImage(sizeKb * 1024)[8..12]) == |TestImage(sizeKb * 1024)|
  {
    HeaderLayout(sizeKb * 1024);
  }

  /** `0x%08x` of a 32-bit value: ten characters, `0x` and eight lower-case
      hexadecimal digits that read back as the value. */
  function HexWord(x: nat): (s: string)
    requires x < U32_LIMIT
    ensures |s| == 10 && s[..2] == "0x"
    ensures forall i :: 2 <= i < 10 ==> IsHexDigit(s[i])
    ensures HexValue(s[2..]) == x
  {
    HexDigitsRoundTrip(x, 8);
    assert ("0x" + HexDigits(x, 8))[2..] == HexDigits(x, 8);
    "0x" + HexDigits(x, 8)
  }

  predicate IsHexDigit(c: char) { '0' <= c <= '9' || 'a' <= c <= 'f' }

  /** The lower-case hexadecimal digit of `d`. */
  function HexDigit(d: nat): (c: char)
    requires d < 16
    ensures IsHexDigit(c) && HexDigitValue(c) == d
  {
    if d < 10 then ('0' as int + d) as char else ('a' as int + d - 10) as char
  }

  function HexDigitValue(c: char): nat
  {
    if '0' <= c <= '9' then c as int - '0' as int
    else if 'a' <= c <= 'f' then c as int - 'a' as int + 10
    else 0
  }

  /** The value of a string of hexadecimal digits, most significant first. */
  function HexValue(s: string): nat
    decreases |s|
  {
    if |s| == 0 then 0 else HexValue(s[..|s| - 1]) * 16 + HexDigitValue(s[|s| - 1])
  }

  function Pow16(n: nat): nat
  {
    if n == 0 then 1 else 16 * Pow16(n - 1)
  }

  /** The last `n` hexadecimal digits of `x`, zero-padded. */
  function HexDigits(x: nat, n: nat): (s: string)
    ensures |s| == n
    ensures forall i :: 0 <= i < n ==> IsHexDigit(s[i])
  {
    if n == 0 then [] else HexDigits(x / 16, n - 1) + [HexDigit(x % 16)]
  }

  /** `n` zero-padded digits of a value below `16^n` read back as the value. */
  lemma {:induction false} HexDigitsRoundTrip(x: nat, n: nat)
    requires x < Pow16(n)
    ensures HexValue(HexDigits(x, n)) == x
    decreases n
  {
    if n > 0 {
      HexDigitsRoundTrip(x / 16, n - 1);
      var s := HexDigits(x, n);
      assert s[..n - 1] == HexDigits(x / 16, n - 1);
    }
  }

  /** The version in the header is the version the server advertises. */
  lemma HeaderVersionIsAdvertised(sizeBytes: nat)
    requires sizeBytes < U32_LIMIT
    ensures HexWord(DecodeLeU32(TestImage(sizeBytes)[4..8])) == UpdateCheck.FIRMWARE_VERSION
  {
    HeaderLayout(sizeBytes);
    assert HexDigits(0x0002_0000, 8) == "00020000";
  }
}
