/**
 * Machine-level value types shared by the bootloader and the host tool:
 * bytes, unsigned words, little-endian encodings, the Option wrapper and
 * the ROM hash primitives that the update path treats as black boxes.
 */
module OtaTypes {

  type byte = x: int | 0 <= x < 0x100
  type u32 = x: int | 0 <= x < 0x1_0000_0000
  type u64 = x: int | 0 <= x < 0x1_0000_0000_0000_0000

  /** A 16-byte MD5 digest, as produced by the ROM and by hashlib. */
  type Digest = s: seq<byte> | |s| == 16 witness seq(16, _ => 0)

  datatype Option<+T> = None | Some(value: T)

  /**
   * The two hash primitives the update path relies on. CRC32 stands for
   * both `esp_rom_crc32_le(0, ...)` in the bootloader and `binascii.crc32(..., 0)`
   * in the host tool, which compute the same standard CRC-32; MD5 stands for
   * the ROM's `esp_rom_md5_*` streaming functions and `hashlib.md5`.
   * Streaming MD5 (init, update per chunk, final) is modelled as MD5 of the
   * concatenated chunks.
   */
  datatype Crypto = Crypto(crc32: seq<byte> -> u32, md5: seq<byte> -> Digest)

  function Min(a: int, b: int): (m: int)
    ensures m <= a && m <= b && (m == a || m == b)
  {
    if a <= b then a else b
  }

  /** 256^n: one more than the largest value held by n bytes. */
  function Pow256(n: nat): (p: nat)
    ensures p >= 1
  {
    if n == 0 then 1 else 256 * Pow256(n - 1)
  }

  /** Little-endian encoding of x in n bytes (`struct.pack('<I')`, a u32 in memory). */
  function EncodeLE(x: nat, n: nat): (b: seq<byte>)
    ensures |b| == n
  {
    if n == 0 then [] else [x % 256] + EncodeLE(x / 256, n - 1)
  }

  /** The value of a little-endian byte string. */
  function DecodeLE(b: seq<byte>): (x: nat)
    ensures x < Pow256(|b|)
  {
    if b == [] then 0 else b[0] + 256 * DecodeLE(b[1..])
  }

  lemma {:induction false} DecodeEncodeLE(x: nat, n: nat)
    requires x < Pow256(n)
    ensures DecodeLE(EncodeLE(x, n)) == x
  {
    if n > 0 {
      var b := EncodeLE(x, n);
      assert b[1..] == EncodeLE(x / 256, n - 1);
      DecodeEncodeLE(x / 256, n - 1);
    }
  }

  lemma {:induction false} EncodeDecodeLE(b: seq<byte>)
    ensures EncodeLE(DecodeLE(b), |b|) == b
  {
    if b != [] {
      var x := DecodeLE(b);
      assert x % 256 == b[0] && x / 256 == DecodeLE(b[1..]);
      EncodeDecodeLE(b[1..]);
    }
  }

  lemma Pow256Four()
    ensures Pow256(4) == 0x1_0000_0000
  {
  }

  /** A u32 as it lies in memory on the (little-endian) target. */
  function LE32(x: u32): (b: seq<byte>)
    ensures |b| == 4
  {
    EncodeLE(x, 4)
  }

  function ReadLE32(b: seq<byte>): (x: u32)
    requires |b| == 4
  {
    Pow256Four();
    DecodeLE(b)
  }

  lemma {:induction false} LE32RoundTrip(x: u32, b: seq<byte>)
    requires |b| == 4
    ensures ReadLE32(LE32(x)) == x
    ensures LE32(ReadLE32(b)) == b
  {
    Pow256Four();
    DecodeEncodeLE(x, 4);
    EncodeDecodeLE(b);
  }

  const FLASH_SECTOR_SIZE: nat := 0x1000

  /** `ALIGN_UP(x, FLASH_SECTOR_SIZE)`: the smallest whole number of flash sectors covering x bytes. */
  function AlignUpSector(x: nat): (r: nat)
    ensures r % FLASH_SECTOR_SIZE == 0 && x <= r < x + FLASH_SECTOR_SIZE
  {
    if x % FLASH_SECTOR_SIZE == 0 then x else x + (FLASH_SECTOR_SIZE - x % FLASH_SECTOR_SIZE)
  }
}
