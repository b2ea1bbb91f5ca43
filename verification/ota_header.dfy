/**
 * The custom OTA update header (`bootloader_custom_ota_header_t`): its byte
 * layout, the constants that identify it, and the bootloader's acceptance
 * test (`bootloader_custom_ota_header_check`) and digest comparison.
 */
module OtaHeader {
  import opened OtaTypes

  type Nibble = x: int | 0 <= x < 16
  type Bytes4 = s: seq<byte> | |s| == 4 witness [0, 0, 0, 0]
  type Bytes32 = s: seq<byte> | |s| == 32 witness seq(32, _ => 0)

  /** `BOOTLOADER_CUSTOM_OTA_HEADER_MAGIC`: the C string "ESP", with its terminator. */
  const HEADER_MAGIC: seq<byte> := [0x45, 0x53, 0x50, 0x00]
  /** `BOOTLOADER_CUSTOM_OTA_HEADER_VERSION`: the highest header version accepted. */
  const HEADER_VERSION: byte := 1
  /** `BOOTLOADER_CUSTOM_OTA_PARTITION_SUBTYPE`: data subtype of the update storage partition. */
  const PARTITION_SUBTYPE: byte := 0x22
  /** `sizeof(bootloader_custom_ota_header_t)`. */
  const HEADER_SIZE: nat := 80
  /** Bytes covered by the header CRC: everything before the trailing `crc32`. */
  const CRC_SPAN: nat := 76
  /** Bytes of the 32-byte `md5` field that hold the digest. */
  const DIGEST_SIZE: nat := 16

  /**
   * The packed header. `compressType` and `deltaType` are the two 4-bit
   * fields sharing byte 5; GCC allocates the first-declared bitfield
   * (`compress_type`) to the low-order bits.
   */
  datatype Header = Header(
    magic: Bytes4,
    version: byte,
    compressType: Nibble,
    deltaType: Nibble,
    encryptionType: byte,
    reserved: byte,
    firmwareVersion: Bytes32,
    length: u32,
    md5: Bytes32,
    crc32: u32)

  /** Byte 5 of the header: `compress_type:4` in the low nibble, `delta_type:4` in the high one. */
  function TypeByte(compress: Nibble, delta: Nibble): (b: byte)
    ensures b % 16 == compress && b / 16 == delta
  {
    compress + 16 * delta
  }

  /** The header as it lies in flash: 80 bytes, fields in declaration order, words little-endian. */
  function Encode(h: Header): (b: seq<byte>)
    ensures |b| == HEADER_SIZE
  {
    h.magic + [h.version, TypeByte(h.compressType, h.deltaType), h.encryptionType, h.reserved]
    + h.firmwareVersion + LE32(h.length) + h.md5 + LE32(h.crc32)
  }

  /** The header read back from 80 bytes of flash (`bootloader_flash_read` into the struct). */
  function Decode(b: seq<byte>): (h: Header)
    requires |b| == HEADER_SIZE
  {
    Header(b[0..4], b[4], b[5] % 16, b[5] / 16, b[6], b[7],
           b[8..40], ReadLE32(b[40..44]), b[44..76], ReadLE32(b[76..80]))
  }

  lemma {:induction false} DecodeEncode(h: Header)
    ensures Decode(Encode(h)) == h
  {
    var b := Encode(h);
    var head := h.magic + [h.version, TypeByte(h.compressType, h.deltaType), h.encryptionType, h.reserved];
    var p40 := head + h.firmwareVersion;
    var p44 := p40 + LE32(h.length);
    var p76 := p44 + h.md5;
    assert b == p76 + LE32(h.crc32);
    assert b[..76] == p76 && b[76..80] == LE32(h.crc32);
    assert p76[..44] == p44 && p76[44..76] == h.md5;
    assert p44[..40] == p40 && p44[40..44] == LE32(h.length);
    assert p40[..8] == head && p40[8..40] == h.firmwareVersion;
    assert b[0..4] == head[0..4] == h.magic;
    assert b[8..40] == p40[8..40];
    assert b[40..44] == p44[40..44];
    assert b[44..76] == p76[44..76];
    LE32RoundTrip(h.length, b[40..44]);
    LE32RoundTrip(h.crc32, b[76..80]);
  }

  lemma {:induction false} EncodeDecode(b: seq<byte>)
    requires |b| == HEADER_SIZE
    ensures Encode(Decode(b)) == b
  {
    var h := Decode(b);
    LE32RoundTrip(0, b[40..44]);
    LE32RoundTrip(0, b[76..80]);
    assert TypeByte(h.compressType, h.deltaType) == b[5];
    assert b == b[0..4] + [b[4], b[5], b[6], b[7]] + b[8..40] + b[40..44] + b[44..76] + b[76..80];
  }

  /** The CRC covers exactly the first 76 bytes and the stored CRC is the last 4. */
  lemma {:induction false} CrcIsLast(h: Header, c: u32)
    ensures Encode(h)[CRC_SPAN..] == LE32(h.crc32)
    ensures Encode(h.(crc32 := c))[..CRC_SPAN] == Encode(h)[..CRC_SPAN]
  {
    var pre := h.magic + [h.version, TypeByte(h.compressType, h.deltaType), h.encryptionType, h.reserved]
               + h.firmwareVersion + LE32(h.length) + h.md5;
    assert Encode(h) == pre + LE32(h.crc32);
    assert Encode(h.(crc32 := c)) == pre + LE32(c);
  }

  /**
   * `strcmp(a, s) == 0` where s is a C string literal stored with its
   * terminator: bytes are compared up to and including s's NUL.
   */
  function StrCmpEqual(a: seq<byte>, s: seq<byte>): bool
    requires |s| > 0 && s[|s| - 1] == 0
    decreases |s|
  {
    |a| > 0 && a[0] == s[0] && (s[0] == 0 || StrCmpEqual(a[1..], s[1..]))
  }

  /** Against a literal with a single NUL, strcmp equality is equality of the first |s| bytes. */
  lemma {:induction false} StrCmpEqualIff(a: seq<byte>, s: seq<byte>)
    requires |s| > 0 && s[|s| - 1] == 0
    requires forall i | 0 <= i < |s| - 1 :: s[i] != 0
    requires |a| >= |s|
    ensures StrCmpEqual(a, s) <==> a[..|s|] == s
  {
    if s[0] != 0 {
      StrCmpEqualIff(a[1..], s[1..]);
      assert a[..|s|] == [a[0]] + a[1..][..|s| - 1];
      assert s == [s[0]] + s[1..];
    }
  }

  /**
   * `bootloader_custom_ota_header_check` on the 80 bytes read from the start
   * of the update partition: the magic compares equal to "ESP", the version
   * is not above the supported one, and the CRC of the first 76 bytes
   * equals the stored `crc32`.
   */
  predicate HeaderAccepted(crypto: Crypto, raw: seq<byte>)
    requires |raw| == HEADER_SIZE
  {
    var h := Decode(raw);
    StrCmpEqual(h.magic, HEADER_MAGIC)
    && h.version <= HEADER_VERSION
    && crypto.crc32(raw[..CRC_SPAN]) == h.crc32
  }

  /** The acceptance test, stated on the header's fields. */
  lemma HeaderAcceptedIff(crypto: Crypto, raw: seq<byte>)
    requires |raw| == HEADER_SIZE
    ensures HeaderAccepted(crypto, raw) <==>
              && raw[0..4] == HEADER_MAGIC
              && raw[4] <= HEADER_VERSION
              && crypto.crc32(raw[..CRC_SPAN]) == ReadLE32(raw[CRC_SPAN..])
  {
    StrCmpEqualIff(raw[0..4], HEADER_MAGIC);
    assert raw[0..4][..4] == raw[0..4];
    assert raw[CRC_SPAN..] == raw[76..80];
  }

  /** `memcmp(header.md5, digest, 16) == 0`: only the first 16 bytes of the field are compared. */
  predicate Md5Matches(crypto: Crypto, h: Header, payload: seq<byte>)
  {
    h.md5[..DIGEST_SIZE] == crypto.md5(payload)
  }
}
