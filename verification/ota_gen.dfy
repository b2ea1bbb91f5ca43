/**
 * The host-side packer (`tools/custom_ota_gen.py`): the bytes it places in
 * front of the (possibly compressed) firmware, and its block padding before
 * AES encryption. Argument parsing, file I/O, the `xz` and `espsecure.py`
 * subprocesses and the AES cipher itself are outside this module.
 */
module OtaGen {
  import opened OtaTypes
  import opened OtaHeader

  /** `binary_compress_type`, `binary_delta_type`, `binary_encryption_type`. */
  datatype CompressType = CompressNone | CompressXz
  datatype DeltaType = DeltaNone | DeltaDdelta
  datatype EncryptionType = EncryptionNone | EncryptionAes128

  function CompressCode(c: CompressType): Nibble
  {
    match c
    case CompressNone => 0
    case CompressXz => 1
  }

  function DeltaCode(d: DeltaType): Nibble
  {
    match d
    case DeltaNone => 0
    case DeltaDdelta => 1
  }

  function EncryptionCode(e: EncryptionType): byte
  {
    match e
    case EncryptionNone => 0
    case EncryptionAes128 => 1
  }

  /** `AES.block_size`. */
  const AES_BLOCK_SIZE: nat := 16

  /** The command-line choices that reach the header. */
  datatype PackOptions = PackOptions(
    compress: CompressType,
    delta: DeltaType,
    encryption: EncryptionType,
    encryptionKeyGiven: bool,   // `--encry_key` is not empty
    firmwareVersion: seq<byte>) // `--ver`, already encoded

  /** `struct.pack('<n>s', s)`: s truncated, or padded with NUL bytes, to exactly n bytes. */
  function PackString(s: seq<byte>, n: nat): (r: seq<byte>)
    ensures |r| == n
    ensures forall i | 0 <= i < n :: r[i] == (if i < |s| then s[i] else 0)
  {
    if |s| >= n then s[..n] else s + seq(n - |s|, _ => 0)
  }

  /** The encryption-type byte: the chosen type only when a key file was given. */
  function EncryptionByte(opts: PackOptions): byte
  {
    if opts.encryptionKeyGiven then EncryptionCode(opts.encryption) else EncryptionCode(EncryptionNone)
  }

  /** The 76 header bytes the tool builds before appending their CRC. */
  function PreCrcHeader(crypto: Crypto, opts: PackOptions, data: seq<byte>): (pre: seq<byte>)
    requires |data| < 0x1_0000_0000
  {
    [0x45, 0x53, 0x50, 0x00]                                      // '4s', b'ESP'
    + [1]                                                         // '?', 1
    + [TypeByte(CompressCode(opts.compress), DeltaCode(opts.delta))]
    + [EncryptionByte(opts)]
    + [0]                                                         // '?', 0
    + PackString(opts.firmwareVersion, 32)
    + LE32(|data|)                                                // '<I', f_len
    + PackString(crypto.md5(data), 32)
  }

  datatype Packed = Packed(image: seq<byte>) | LengthOverflow

  /**
   * The `.packed` file: header, CRC of the header, then the payload. A payload
   * of 2^32 bytes or more makes `struct.pack('<I', f_len)` raise.
   */
  function Pack(crypto: Crypto, opts: PackOptions, data: seq<byte>): (p: Packed)
    ensures p.LengthOverflow? <==> |data| >= 0x1_0000_0000
    ensures p.Packed? ==> |p.image| == HEADER_SIZE + |data| && p.image[HEADER_SIZE..] == data
  {
    if |data| >= 0x1_0000_0000 then LengthOverflow
    else
      var pre := PreCrcHeader(crypto, opts, data);
      Packed(pre + LE32(crypto.crc32(pre)) + data)
  }

  /** The header the bootloader reads back from a packed image, field by field. */
  lemma {:induction false} PackedHeader(crypto: Crypto, opts: PackOptions, data: seq<byte>)
    requires |data| < 0x1_0000_0000
    ensures Pack(crypto, opts, data).Packed?
    ensures var img := Pack(crypto, opts, data).image;
            && img[..CRC_SPAN] == PreCrcHeader(crypto, opts, data)
            && Decode(img[..HEADER_SIZE]) == Header(
                 HEADER_MAGIC, HEADER_VERSION,
                 CompressCode(opts.compress), DeltaCode(opts.delta),
                 EncryptionByte(opts), 0,
                 PackString(opts.firmwareVersion, 32),
                 |data|,
                 PackString(crypto.md5(data), 32),
                 crypto.crc32(PreCrcHeader(crypto, opts, data)))
  {
    var pre := PreCrcHeader(crypto, opts, data);
    var img := Pack(crypto, opts, data).image;
    var h := Header(HEADER_MAGIC, HEADER_VERSION,
                    CompressCode(opts.compress), DeltaCode(opts.delta),
                    EncryptionByte(opts), 0,
                    PackString(opts.firmwareVersion, 32), |data|,
                    PackString(crypto.md5(data), 32), crypto.crc32(pre));
    assert pre == Encode(h)[..CRC_SPAN];
    assert img[..HEADER_SIZE] == Encode(h);
    DecodeEncode(h);
  }

  /**
   * Every image the tool packs passes the bootloader's header check and its
   * MD5 check: the magic, version and CRC agree, `length` is the payload
   * size, and the digest is taken over exactly the bytes after the header.
   */
  lemma {:induction false} PackedImageAccepted(crypto: Crypto, opts: PackOptions, data: seq<byte>)
    requires |data| < 0x1_0000_0000
    ensures var img := Pack(crypto, opts, data).image;
            var h := Decode(img[..HEADER_SIZE]);
            && HeaderAccepted(crypto, img[..HEADER_SIZE])
            && h.length == |data|
            && img[HEADER_SIZE..HEADER_SIZE + h.length] == data
            && Md5Matches(crypto, h, img[HEADER_SIZE..HEADER_SIZE + h.length])
  {
    PackedHeader(crypto, opts, data);
    var img := Pack(crypto, opts, data).image;
    assert img[..HEADER_SIZE][..CRC_SPAN] == img[..CRC_SPAN];
    StrCmpEqualIff(HEADER_MAGIC, HEADER_MAGIC);
    assert HEADER_MAGIC[..4] == HEADER_MAGIC;
    assert img[HEADER_SIZE..HEADER_SIZE + |data|] == data;
    assert PackString(crypto.md5(data), 32)[..DIGEST_SIZE] == crypto.md5(data);
  }

  /**
   * The padding `aes_data_pad` appends (the scheme of section 6.3 of RFC 5652,
   * called "PKCS5" in the tool): p = 16 - |data| mod 16 bytes, each of value p.
   */
  function Pkcs7Pad(data: seq<byte>): seq<byte>
  {
    var p := AES_BLOCK_SIZE - |data| % AES_BLOCK_SIZE;
    data + seq(p, _ => p)
  }

  /** The receiver's inverse: check and strip the padding. */
  function Pkcs7Unpad(b: seq<byte>): Option<seq<byte>>
  {
    if |b| == 0 || |b| % AES_BLOCK_SIZE != 0 then None
    else
      var p := b[|b| - 1];
      if 1 <= p <= AES_BLOCK_SIZE && forall i | |b| - p <= i < |b| :: b[i] == p
      then Some(b[..|b| - p]) else None
  }

  lemma {:induction false} PadShape(data: seq<byte>)
    ensures |Pkcs7Pad(data)| % AES_BLOCK_SIZE == 0
    ensures |data| + 1 <= |Pkcs7Pad(data)| <= |data| + AES_BLOCK_SIZE
    ensures |data| % AES_BLOCK_SIZE == 0 ==> |Pkcs7Pad(data)| == |data| + AES_BLOCK_SIZE
    ensures Pkcs7Pad(data)[..|data|] == data
  {
    var p := AES_BLOCK_SIZE - |data| % AES_BLOCK_SIZE;
    assert |Pkcs7Pad(data)| == |data| + p;
    assert (|data| + p) % AES_BLOCK_SIZE == 0;
  }

  lemma {:induction false} UnpadPad(data: seq<byte>)
    ensures Pkcs7Unpad(Pkcs7Pad(data)) == Some(data)
  {
    PadShape(data);
    var b := Pkcs7Pad(data);
    var p := AES_BLOCK_SIZE - |data| % AES_BLOCK_SIZE;
    assert b[|b| - 1] == p;
    assert forall i | |b| - p <= i < |b| :: b[i] == p;
  }

  /** `aes_data_pad`: appends the padding one byte at a time. */
  method AesDataPad(data: seq<byte>) returns (padded: seq<byte>)
    ensures padded == Pkcs7Pad(data)
    ensures |padded| % AES_BLOCK_SIZE == 0 && |data| < |padded| <= |data| + AES_BLOCK_SIZE
    ensures Pkcs7Unpad(padded) == Some(data)
  {
    var padSize: nat := AES_BLOCK_SIZE - |data| % AES_BLOCK_SIZE;
    if padSize == 0 {
      padSize := AES_BLOCK_SIZE;
    }
    var pad: byte := padSize;   // chr(pad_size).encode() is one byte
    padded := data;
    while padSize != 0
      invariant padSize <= pad
      invariant padded == data + seq(pad - padSize, _ => pad)
    {
      padded := padded + [pad];
      padSize := padSize - 1;
    }
    assert pad == AES_BLOCK_SIZE - |data| % AES_BLOCK_SIZE;
    PadShape(data);
    UnpadPad(data);
  }
}
